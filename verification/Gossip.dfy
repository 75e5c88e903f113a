/**
 The membership table of a gossiper, pkg/cluster/gossip.go: one node, and its merge.

 Every locked method is one step.  `startSuspicion`, `checkSuspicions` and `broadcastState` ask for
 a sequence number while they hold the lock that `nextSeqNo` takes; the model gives them the number
 they ask for.  Clocks and the order in which a Go map is walked are parameters.
 */
module Gossip {
  import opened Wrappers

  type NodeId = string

  /** The four named states, and any other string. */
  datatype NodeState = Active | Suspect | Leaving | Inactive | Other(name: string)

  function StatePriority(s: NodeState): int {
    match s
    case Active => 0
    case Suspect => 1
    case Leaving => 2
    case Inactive => 3
    case Other(_) => -1
  }

  datatype Entry = Entry(
    node: NodeId, address: string, state: NodeState, incarnation: nat, updated: int, metadata: map<string, string>)

  type Table = map<NodeId, Entry>

  datatype Kind = Push | Pull | PushPull | Probe | ProbeAck | Alive | SuspectNews | Dead | Unknown

  datatype Message = Message(kind: Kind, states: seq<Entry>, from: NodeId, seqNo: nat)

  /** The fields of a Gossiper; the local state is the node's own table entry. */
  datatype Node = Node(
    id: NodeId, table: Table, incarnation: nat, seqNo: nat, suspicions: set<NodeId>, broadcasts: seq<Message>)

  const QUEUE_LIMIT := 100

  predicate WellFormed(n: Node) {
    n.id in n.table
  }

  // ---------- what the methods do ----------

  /** Whether an incoming entry replaces an existing one. */
  predicate Newer(e: Entry, x: Entry) {
    e.incarnation > x.incarnation ||
    (e.incarnation == x.incarnation && StatePriority(e.state) > StatePriority(x.state))
  }

  function MergeOne(t: Table, e: Entry): Table {
    if e.node in t && !Newer(e, t[e.node]) then t else t[e.node := e]
  }

  function Merge(t: Table, es: seq<Entry>): Table {
    if es == [] then t else MergeOne(Merge(t, es[..|es| - 1]), es[|es| - 1])
  }

  function Queue(n: Node, kind: Kind, e: Entry): Node {
    var q := n.broadcasts + [Message(kind, [e], n.id, n.seqNo + 1)];
    n.(seqNo := n.seqNo + 1, broadcasts := if |q| > QUEUE_LIMIT then q[1..] else q)
  }

  function NewNode(id: NodeId, addr: string, now: int): Node {
    Node(id, map[id := Entry(id, addr, Active, 1, now, map[])], 1, 0, {}, [])
  }

  /** The own entry changed by `change` and stamped with the next incarnation. */
  function Reincarnate(n: Node, e: Entry, now: int): Node
    requires WellFormed(n)
  {
    var i := n.incarnation + 1;
    n.(incarnation := i, table := n.table[n.id := e.(incarnation := i, updated := now)])
  }

  function DoLeave(n: Node, now: int): Node
    requires WellFormed(n)
  {
    var m := Reincarnate(n, n.table[n.id].(state := Leaving), now);
    Queue(m, Alive, m.table[m.id])
  }

  function DoSetMetadata(n: Node, key: string, value: string, now: int): Node
    requires WellFormed(n)
  {
    Reincarnate(n, n.table[n.id].(metadata := n.table[n.id].metadata[key := value]), now)
  }

  function SetState(n: Node, id: NodeId, s: NodeState, now: int): Node
    requires id in n.table
  {
    n.(table := n.table[id := n.table[id].(state := s, updated := now)])
  }

  function DoStartSuspicion(n: Node, id: NodeId, now: int): Node {
    if id in n.suspicions || id !in n.table || n.table[id].state != Active then n
    else
      var m := SetState(n, id, Suspect, now).(suspicions := n.suspicions + {id});
      Queue(m, SuspectNews, m.table[id])
  }

  function DoClearSuspicion(n: Node, id: NodeId, now: int): Node {
    var m := n.(suspicions := n.suspicions - {id});
    if id in m.table && m.table[id].state == Suspect then SetState(m, id, Active, now) else m
  }

  function Expire(n: Node, id: NodeId, now: int): Node {
    var m := n.(suspicions := n.suspicions - {id});
    if id !in m.table then m
    else
      var d := SetState(m, id, Inactive, now);
      Queue(d, Dead, d.table[id])
  }

  /** The suspicions in `ids` run out, one after the other. */
  function ExpireAll(n: Node, ids: seq<NodeId>, now: int): Node {
    if ids == [] then n else Expire(ExpireAll(n, ids[..|ids| - 1], now), ids[|ids| - 1], now)
  }

  /** All entries of a table, in the order of a walk. */
  ghost predicate IsListing(t: Table, es: seq<Entry>) {
    && |es| == |t|
    && (forall i :: 0 <= i < |es| ==> es[i].node in t && t[es[i].node] == es[i])
    && (forall id :: id in t ==> t[id] in es)
  }

  /** HandleMessage: the node afterwards and the reply; `listing` is the walk that a full reply makes. */
  function DoHandle(n: Node, m: Message, listing: seq<Entry>): (Node, Option<Message>) {
    match m.kind
    case Push => (n.(table := Merge(n.table, m.states)), None)
    case Pull => (n.(seqNo := n.seqNo + 1), Some(Message(Push, listing, n.id, n.seqNo + 1)))
    case PushPull =>
      (n.(table := Merge(n.table, m.states), seqNo := n.seqNo + 1), Some(Message(Push, listing, n.id, n.seqNo + 1)))
    case Probe => (n, Some(Message(ProbeAck, [], n.id, 0)))
    case Alive => (n.(table := Merge(n.table, m.states)), None)
    case SuspectNews => (n.(table := Merge(n.table, m.states)), None)
    case Dead => (n.(table := Merge(n.table, m.states)), None)
    case _ => (n, None)
  }

  /** The messages that announcing `news` queues, in order. */
  function Announced(id: NodeId, seqNo: nat, news: seq<(Kind, Entry)>): (ms: seq<Message>)
    ensures |ms| == |news|
  {
    seq(|news|, i requires 0 <= i < |news| => Message(news[i].0, [news[i].1], id, seqNo + i + 1))
  }

  function QueueAll(n: Node, news: seq<(Kind, Entry)>): Node {
    if news == [] then n
    else Queue(QueueAll(n, news[..|news| - 1]), news[|news| - 1].0, news[|news| - 1].1)
  }

  /** The last hundred, or all when there are fewer. */
  function LastHundred(ms: seq<Message>): seq<Message> {
    if |ms| <= 100 then ms else ms[|ms| - 100..]
  }

  lemma AnnouncedNext(id: NodeId, seqNo: nat, news: seq<(Kind, Entry)>)
    requires news != []
    ensures var init, last := news[..|news| - 1], news[|news| - 1];
            Announced(id, seqNo, news) == Announced(id, seqNo, init) + [Message(last.0, [last.1], id, seqNo + |news|)]
  {
  }

  lemma NewestNext(before: seq<Message>, last: Message, q: seq<Message>)
    requires q == LastHundred(before) + [last]
    ensures (if |q| > 100 then q[1..] else q) == LastHundred(before + [last])
  {
  }

  /** The queue of `m` is the newest part of `all`. */
  predicate Holds(m: Node, all: seq<Message>) {
    m.broadcasts == LastHundred(all)
  }

  lemma QueueNext(n: Node, kind: Kind, e: Entry, before: seq<Message>, all: seq<Message>)
    requires Holds(n, before) && all == before + [Message(kind, [e], n.id, n.seqNo + 1)]
    ensures Holds(Queue(n, kind, e), all)
  {
    var last := Message(kind, [e], n.id, n.seqNo + 1);
    NewestNext(before, last, n.broadcasts + [last]);
  }

  lemma {:induction false} QueueNumbers(n: Node, news: seq<(Kind, Entry)>)
    ensures var m := QueueAll(n, news); m.id == n.id && m.seqNo == n.seqNo + |news| && m.table == n.table
  {
    if news != [] { QueueNumbers(n, news[..|news| - 1]); }
  }

  lemma AllNext(n: Node, news: seq<(Kind, Entry)>, before: seq<Message>) returns (all: seq<Message>)
    requires news != [] && before == n.broadcasts + Announced(n.id, n.seqNo, news[..|news| - 1])
    ensures all == n.broadcasts + Announced(n.id, n.seqNo, news)
    ensures all == before + [Message(news[|news| - 1].0, [news[|news| - 1].1], n.id, n.seqNo + |news|)]
  {
    AnnouncedNext(n.id, n.seqNo, news);
    var last := Message(news[|news| - 1].0, [news[|news| - 1].1], n.id, n.seqNo + |news|);
    all := before + [last];
    Associate(n.broadcasts, Announced(n.id, n.seqNo, news[..|news| - 1]), [last]);
  }

  /** Whatever is announced, the queue keeps the newest hundred messages, numbered on without a gap. */
  lemma {:induction false} QueueKeepsNewest(n: Node, news: seq<(Kind, Entry)>) returns (all: seq<Message>)
    requires |n.broadcasts| <= 100
    ensures all == n.broadcasts + Announced(n.id, n.seqNo, news)
    ensures Holds(QueueAll(n, news), all)
  {
    if news == [] {
      all := n.broadcasts;
      assert n.broadcasts + Announced(n.id, n.seqNo, news) == n.broadcasts;
    } else {
      var init, last := news[..|news| - 1], news[|news| - 1];
      var before := QueueKeepsNewest(n, init);
      all := AllNext(n, news, before);
      QueueNumbers(n, init);
      QueueNext(QueueAll(n, init), last.0, last.1, before, all);
    }
  }

  /** When suspicions run out, exactly the nodes suspected become inactive. */
  lemma {:induction false} Expired(n: Node, ids: seq<NodeId>, now: int)
    ensures var m := ExpireAll(n, ids, now);
            && m.table.Keys == n.table.Keys && m.suspicions == n.suspicions - (set x | x in ids)
            && forall x :: x in n.table ==>
                 m.table[x] == if x in ids then n.table[x].(state := Inactive, updated := now) else n.table[x]
  {
    if ids != [] {
      var init, last := ids[..|ids| - 1], ids[|ids| - 1];
      Expired(n, init, now);
      assert ids == init + [last];
      assert (set x | x in ids) == (set x | x in init) + {last};
    }
  }

  // ---------- the gossiper ----------

  class Gossiper {
    const id: NodeId
    var states: Table
    var incarnation: nat
    var seqNo: nat
    var suspicions: set<NodeId>
    var broadcasts: seq<Message>

    ghost function Model(): Node
      reads this
    {
      Node(id, states, incarnation, seqNo, suspicions, broadcasts)
    }

    constructor (id: NodeId, addr: string, now: int)
      ensures Model() == NewNode(id, addr, now)
    {
      this.id := id;
      states := map[id := Entry(id, addr, Active, 1, now, map[])];
      incarnation, seqNo, suspicions, broadcasts := 1, 0, {}, [];
    }

    method NextSeqNo() returns (n: nat)
      modifies this`seqNo
      ensures Model() == old(Model()).(seqNo := n) && n == old(seqNo) + 1
    {
      seqNo := seqNo + 1;
      return seqNo;
    }

    method QueueBroadcast(kind: Kind, e: Entry)
      modifies this`seqNo, this`broadcasts
      ensures Model() == Queue(old(Model()), kind, e)
    {
      var n := NextSeqNo();
      broadcasts := broadcasts + [Message(kind, [e], id, n)];
      if |broadcasts| > QUEUE_LIMIT {
        broadcasts := broadcasts[1..];
      }
    }

    method MergeStates(es: seq<Entry>)
      modifies this`states
      ensures states == Merge(old(states), es)
    {
      for i := 0 to |es|
        invariant states == Merge(old(states), es[..i])
      {
        assert es[..i + 1][..i] == es[..i];
        var incoming := es[i];
        if incoming.node !in states {
          states := states[incoming.node := incoming];
          continue;
        }
        var existing := states[incoming.node];
        if incoming.incarnation < existing.incarnation { continue; }
        if incoming.incarnation == existing.incarnation &&
           StatePriority(incoming.state) <= StatePriority(existing.state) { continue; }
        states := states[incoming.node := incoming];
      }
      assert es[..|es|] == es;
    }

    method Leave(now: int)
      requires WellFormed(Model())
      modifies this
      ensures Model() == DoLeave(old(Model()), now)
      ensures states.Keys == old(states.Keys) && forall x :: x in states && x != id ==> states[x] == old(states)[x]
      ensures states[id] == old(states)[id].(state := Leaving, incarnation := old(incarnation) + 1, updated := now)
      ensures broadcasts != [] && broadcasts[|broadcasts| - 1] == Message(Alive, [states[id]], id, old(seqNo) + 1)
    {
      incarnation := incarnation + 1;
      states := states[id := states[id].(state := Leaving, incarnation := incarnation, updated := now)];
      QueueBroadcast(Alive, states[id]);
    }

    method SetMetadata(key: string, value: string, now: int)
      requires WellFormed(Model())
      modifies this
      ensures Model() == DoSetMetadata(old(Model()), key, value, now)
    {
      var e := states[id];
      incarnation := incarnation + 1;
      states := states[id := e.(metadata := e.metadata[key := value], incarnation := incarnation, updated := now)];
    }

    method StartSuspicion(nodeId: NodeId, now: int)
      modifies this
      ensures Model() == DoStartSuspicion(old(Model()), nodeId, now)
      ensures states.Keys == old(states.Keys) && forall x :: x in states && x != nodeId ==> states[x] == old(states)[x]
      ensures nodeId in states ==>
                states[nodeId].state ==
                if old(states)[nodeId].state == Active && nodeId !in old(suspicions) then Suspect
                else old(states)[nodeId].state
    {
      if nodeId in suspicions || nodeId !in states || states[nodeId].state != Active { return; }
      states := states[nodeId := states[nodeId].(state := Suspect, updated := now)];
      suspicions := suspicions + {nodeId};
      QueueBroadcast(SuspectNews, states[nodeId]);
    }

    method ClearSuspicion(nodeId: NodeId, now: int)
      modifies this
      ensures Model() == DoClearSuspicion(old(Model()), nodeId, now)
      ensures nodeId !in suspicions
      ensures states.Keys == old(states.Keys) && forall x :: x in states && x != nodeId ==> states[x] == old(states)[x]
      ensures nodeId in states ==>
                states[nodeId].state == if old(states)[nodeId].state == Suspect then Active else old(states)[nodeId].state
    {
      suspicions := suspicions - {nodeId};
      if nodeId in states && states[nodeId].state == Suspect {
        states := states[nodeId := states[nodeId].(state := Active, updated := now)];
      }
    }

    /** `expired` are the suspicions whose timer has run out, in the order of the walk. */
    method CheckSuspicions(expired: seq<NodeId>, now: int)
      requires forall id :: id in expired ==> id in suspicions
      modifies this
      ensures Model() == ExpireAll(old(Model()), expired, now)
      ensures states.Keys == old(states.Keys) && suspicions == old(suspicions) - (set x | x in expired)
      ensures forall x :: x in states ==>
                states[x] == if x in expired then old(states)[x].(state := Inactive, updated := now) else old(states)[x]
    {
      for i := 0 to |expired|
        invariant Model() == ExpireAll(old(Model()), expired[..i], now)
      {
        assert expired[..i + 1][..i] == expired[..i];
        var nodeId := expired[i];
        suspicions := suspicions - {nodeId};
        if nodeId in states {
          states := states[nodeId := states[nodeId].(state := Inactive, updated := now)];
          QueueBroadcast(Dead, states[nodeId]);
        }
      }
      assert expired[..|expired|] == expired;
      Expired(old(Model()), expired, now);
    }

    method GetAllStates() returns (es: seq<Entry>)
      requires forall id :: id in states ==> states[id].node == id
      ensures IsListing(states, es)
    {
      es := [];
      var todo := states.Keys;
      while todo != {}
        invariant todo <= states.Keys
        invariant |es| + |todo| == |states|
        invariant forall i :: 0 <= i < |es| ==> es[i].node in states && states[es[i].node] == es[i]
        invariant forall id :: id in states && id !in todo ==> states[id] in es
        decreases |todo|
      {
        var next :| next in todo;
        es := es + [states[next]];
        todo := todo - {next};
      }
    }

    method HandleMessage(m: Message) returns (reply: Option<Message>)
      requires forall id :: id in states ==> states[id].node == id
      modifies this
      ensures exists listing ::
                && DoHandle(old(Model()), m, listing) == (Model(), reply)
                && (m.kind.Pull? || m.kind.PushPull? ==> IsListing(states, listing))
    {
      reply := None;
      ghost var listing: seq<Entry> := [];
      match m.kind {
        case Pull =>
          var es := GetAllStates();
          listing := es;
          var n := NextSeqNo();
          reply := Some(Message(Push, es, id, n));
        case PushPull =>
          MergeStates(m.states);
          MergeKeepsKeys(old(states), m.states);
          var es := GetAllStates();
          listing := es;
          var n := NextSeqNo();
          reply := Some(Message(Push, es, id, n));
        case Probe =>
          reply := Some(Message(ProbeAck, [], id, 0));
        case Push => MergeStates(m.states);
        case Alive => MergeStates(m.states);
        case SuspectNews => MergeStates(m.states);
        case Dead => MergeStates(m.states);
        case _ =>
      }
      assert DoHandle(old(Model()), m, listing) == (Model(), reply);
    }
  }

  // ---------- the merge is a join ----------

  lemma {:induction false} MergeKeepsKeys(t: Table, es: seq<Entry>)
    requires forall id :: id in t ==> t[id].node == id
    ensures forall id :: id in Merge(t, es) ==> Merge(t, es)[id].node == id
  {
    if es != [] { MergeKeepsKeys(t, es[..|es| - 1]); }
  }

  lemma {:induction false} MergeInParts(t: Table, a: seq<Entry>, b: seq<Entry>)
    ensures Merge(t, a + b) == Merge(Merge(t, a), b)
  {
    if b == [] {
      assert a + b == a;
    } else {
      var init := b[..|b| - 1];
      assert (a + b)[..|a + b| - 1] == a + init;
      MergeInParts(t, a, init);
    }
  }

  /** `x` is an entry for `id` that a node with table `t` has or hears of in `es`. */
  ghost predicate Seen(t: Table, es: seq<Entry>, id: NodeId, x: Entry) {
    (id in t && x == t[id]) || (x in es && x.node == id)
  }

  /** The merge keeps, per node, an entry that was seen and than which none that was seen is newer. */
  lemma {:induction false} MergeIsMaximum(t: Table, es: seq<Entry>, id: NodeId)
    ensures id in Merge(t, es) <==> exists x :: Seen(t, es, id, x)
    ensures id in Merge(t, es) ==> Seen(t, es, id, Merge(t, es)[id])
    ensures id in Merge(t, es) ==> forall x :: Seen(t, es, id, x) ==> !Newer(x, Merge(t, es)[id])
  {
    if es == [] {
      assert id in t ==> Seen(t, es, id, t[id]);
    } else {
      var init, last := es[..|es| - 1], es[|es| - 1];
      MergeIsMaximum(t, init, id);
      assert es == init + [last];
      assert forall x :: Seen(t, es, id, x) <==> Seen(t, init, id, x) || (x == last && last.node == id);
      if last.node == id { assert Seen(t, es, id, last); }
      if id in Merge(t, init) { assert Seen(t, es, id, Merge(t, init)[id]); }
    }
  }

  /** `a` comes after `b` in the order Active, Suspect, Leaving, Inactive; any other state comes before the four. */
  predicate After(a: NodeState, b: NodeState) {
    match a
    case Inactive => !b.Inactive?
    case Leaving => b.Active? || b.Suspect? || b.Other?
    case Suspect => b.Active? || b.Other?
    case Active => b.Other?
    case Other(_) => false
  }

  /** An entry is taken over when its node is new, its incarnation higher, or its state later at the same incarnation. */
  lemma MergeTakesExactly(t: Table, e: Entry)
    ensures var taken := e.node !in t || e.incarnation > t[e.node].incarnation
                         || (e.incarnation == t[e.node].incarnation && After(e.state, t[e.node].state));
            Merge(t, [e]) == if taken then t[e.node := e] else t
  {
    assert [e][..0] == [];
  }

  /** Some entry seen for `id` at the highest incarnation seen has state `s`. */
  ghost predicate TopState(t: Table, es: seq<Entry>, id: NodeId, s: NodeState) {
    exists x :: Seen(t, es, id, x) && x.state == s && forall y :: Seen(t, es, id, y) ==> y.incarnation <= x.incarnation
  }

  /**
   Of all that was seen of a node at its highest incarnation the gravest state wins: one Inactive makes the
   merged entry Inactive, without it one Leaving makes it Leaving, then one Suspect, then one Active.
   */
  lemma GravestStateWins(t: Table, es: seq<Entry>, id: NodeId)
    requires id in Merge(t, es)
    ensures var m := Merge(t, es)[id];
            && TopState(t, es, id, m.state)
            && (forall x :: Seen(t, es, id, x) ==> x.incarnation <= m.incarnation)
            && (m.state == Inactive <==> TopState(t, es, id, Inactive))
            && (m.state == Leaving <==> TopState(t, es, id, Leaving) && !TopState(t, es, id, Inactive))
            && (m.state == Suspect <==>
                TopState(t, es, id, Suspect) && !TopState(t, es, id, Leaving) && !TopState(t, es, id, Inactive))
            && (m.state.Other? ==> forall s :: TopState(t, es, id, s) ==> s.Other?)
  {
    MergeIsMaximum(t, es, id);
    var m := Merge(t, es)[id];
    forall s | TopState(t, es, id, s) ensures !After(s, m.state) { TopIsNotAfter(t, es, id, s, m); }
  }

  lemma TopIsNotAfter(t: Table, es: seq<Entry>, id: NodeId, s: NodeState, m: Entry)
    requires TopState(t, es, id, s) && Seen(t, es, id, m)
    requires forall x :: Seen(t, es, id, x) ==> !Newer(x, m)
    ensures !After(s, m.state)
  {
    var x :| Seen(t, es, id, x) && x.state == s && forall y :: Seen(t, es, id, y) ==> y.incarnation <= x.incarnation;
    assert !Newer(x, m);
  }

  /** Same incarnation and same rank of the state. */
  predicate SameRank(a: Entry, b: Entry) {
    a.incarnation == b.incarnation && StatePriority(a.state) == StatePriority(b.state)
  }

  predicate Agree(a: Table, b: Table, id: NodeId) {
    (id in a <==> id in b) && (id in a ==> SameRank(a[id], b[id]))
  }

  /** Order, grouping and repetition of what a node hears do not matter. */
  lemma MergeIgnoresOrder(t: Table, es: seq<Entry>, fs: seq<Entry>, id: NodeId)
    requires forall e :: e in es <==> e in fs
    ensures Agree(Merge(t, es), Merge(t, fs), id)
  {
    MergeIsMaximum(t, es, id);
    MergeIsMaximum(t, fs, id);
    assert forall x :: Seen(t, es, id, x) <==> Seen(t, fs, id, x);
    if id in Merge(t, es) {
      assert Seen(t, fs, id, Merge(t, es)[id]);
    }
    if id in Merge(t, fs) {
      assert Seen(t, es, id, Merge(t, fs)[id]);
    }
  }

  /** An entry is replaced only by a newer one. */
  lemma {:induction false} MergeKeepsOrRaises(t: Table, es: seq<Entry>, id: NodeId)
    requires id in t
    ensures id in Merge(t, es) && (Merge(t, es)[id] == t[id] || Newer(Merge(t, es)[id], t[id]))
  {
    if es != [] {
      MergeKeepsOrRaises(t, es[..|es| - 1], id);
    }
  }

  /** Every entry is filed under the node it is about. */
  ghost predicate WellKeyed(t: Table) {
    forall id :: id in t ==> t[id].node == id
  }

  /** One undisturbed push-pull: `a` pushes all it has, and pulls all that `b` then has. */
  ghost predicate Exchange(a: Table, b: Table, pushed: seq<Entry>, pulled: seq<Entry>, a': Table, b': Table) {
    && IsListing(a, pushed) && b' == Merge(b, pushed)
    && IsListing(b', pulled) && a' == Merge(a, pulled)
  }

  /** Both sides have the node at the same incarnation, in different states that both lie outside the named four. */
  predicate Stuck(a: Table, b: Table, id: NodeId) {
    && id in a && id in b && a[id].incarnation == b[id].incarnation
    && a[id].state.Other? && b[id].state.Other? && a[id].state != b[id].state
  }

  /** A push-pull message that is handled, and its reply merged by the sender, is one exchange. */
  lemma PushPullExchanges(a: Node, b: Node, pushed: seq<Entry>, seqNo: nat, pulled: seq<Entry>)
    requires IsListing(a.table, pushed)
    requires IsListing(DoHandle(b, Message(PushPull, pushed, a.id, seqNo), pulled).0.table, pulled)
    ensures var (b', reply) := DoHandle(b, Message(PushPull, pushed, a.id, seqNo), pulled);
            reply.Some? && Exchange(a.table, b.table, pushed, pulled, Merge(a.table, reply.value.states), b'.table)
  {
  }

  lemma ExchangeSees(a: Table, b: Table, pushed: seq<Entry>, pulled: seq<Entry>, a': Table,
        b': Table, id: NodeId)
    requires WellKeyed(a) && WellKeyed(b) && Exchange(a, b, pushed, pulled, a', b')
    ensures WellKeyed(a') && WellKeyed(b') && Agree(a', b', id)
    ensures id in a' <==> id in a || id in b
    ensures id in b' ==> (id in a && b'[id] == a[id]) || (id in b && b'[id] == b[id])
    ensures id in a' ==> (id in a && a'[id] == a[id]) || (id in b' && a'[id] == b'[id])
  {
    MergeKeepsKeys(b, pushed);
    MergeKeepsKeys(a, pulled);
    MergeIsMaximum(b, pushed, id);
    MergeIsMaximum(a, pulled, id);
    if id in a { assert Seen(b, pushed, id, a[id]) && Seen(a, pulled, id, a[id]); }
    if id in b { assert Seen(b, pushed, id, b[id]); }
    if id in b' { assert Seen(a, pulled, id, b'[id]); }
  }

  /**
   After an undisturbed push-pull both sides know the same nodes, each at the same incarnation and
   rank.  They also agree on the state of a node exactly when they were not stuck on it before, and
   where they were stuck neither side has changed its entry.
   */
  lemma PushPullAgreesExactly(a: Table, b: Table, pushed: seq<Entry>, pulled: seq<Entry>,
                                                 a': Table, b': Table, id: NodeId)
    requires WellKeyed(a) && WellKeyed(b) && Exchange(a, b, pushed, pulled, a', b')
    ensures Agree(a', b', id)
    ensures id in a' <==> id in a || id in b
    ensures id in a' ==> (a'[id].state == b'[id].state <==> !Stuck(a, b, id))
    ensures Stuck(a, b, id) ==> a'[id] == a[id] && b'[id] == b[id]
  {
    ExchangeSees(a, b, pushed, pulled, a', b', id);
    if id in b { MergeKeepsOrRaises(b, pushed, id); }
    if id in a { MergeKeepsOrRaises(a, pulled, id); }
  }

  /** Two nodes that exchange everything again and again, in either direction. */
  ghost predicate Exchanges(run: seq<(Table, Table)>) {
    && (forall i :: 0 <= i < |run| ==> WellKeyed(run[i].0) && WellKeyed(run[i].1))
    && forall i :: 0 <= i < |run| - 1 ==> Meets(run[i], run[i + 1])
  }

  ghost predicate Meets(x: (Table, Table), y: (Table, Table)) {
    exists pushed, pulled ::
      Exchange(x.0, x.1, pushed, pulled, y.0, y.1) || Exchange(x.1, x.0, pushed, pulled, y.1, y.0)
  }

  /** Any number of exchanges ends in agreement on the state exactly when the two nodes were not stuck at the start. */
  lemma {:induction false} AgreesInTheEndExactly(run: seq<(Table, Table)>, i: nat, id: NodeId)
    requires Exchanges(run) && 0 < i < |run| && (id in run[0].0 || id in run[0].1)
    ensures id in run[i].0 && id in run[i].1
    ensures run[i].0[id].state == run[i].1[id].state <==> !Stuck(run[0].0, run[0].1, id)
    ensures Stuck(run[i].0, run[i].1, id) <==> Stuck(run[0].0, run[0].1, id)
  {
    if i > 1 { AgreesInTheEndExactly(run, i - 1, id); }
    var x, y := run[i - 1], run[i];
    assert Meets(run[i - 1], run[i - 1 + 1]);
    var pushed, pulled :|
      Exchange(x.0, x.1, pushed, pulled, y.0, y.1) || Exchange(x.1, x.0, pushed, pulled, y.1, y.0);
    if Exchange(x.0, x.1, pushed, pulled, y.0, y.1) {
      PushPullAgreesExactly(x.0, x.1, pushed, pulled, y.0, y.1, id);
    } else {
      PushPullAgreesExactly(x.1, x.0, pushed, pulled, y.1, y.0, id);
    }
  }

  /** Two nodes that a full exchange leaves exactly as they were, in disagreement. */
  lemma OtherStatesDisagree()
    ensures exists a: Table, b: Table, pushed, pulled, id ::
              WellKeyed(a) && WellKeyed(b) && Exchange(a, b, pushed, pulled, a, b) && Stuck(a, b, id)
  {
    var x := Entry("n", "", Other("up"), 1, 0, map[]);
    var y := x.(state := Other("down"));
    var a, b: Table := map["n" := x], map["n" := y];
    var pushed, pulled := [x], [y];
    assert pushed[..0] == [] && pulled[..0] == [];
    assert Merge(b, pushed) == MergeOne(Merge(b, pushed[..0]), x) == b;
    assert Merge(a, pulled) == MergeOne(Merge(a, pulled[..0]), y) == a;
    assert a["n"] in pushed && b["n"] in pulled;
    assert Exchange(a, b, pushed, pulled, a, b) && Stuck(a, b, "n");
  }
}

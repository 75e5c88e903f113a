/**
 Any number of gossipers with distinct IDs and a network between them.

 A message that was ever sent may arrive at any node, any number of times and in any order, or
 never.  The table of a node may hold wrong states, but never a wrong incarnation: no table and no
 message is ahead of the node it speaks about.
 */
module GossipNetwork {
  import opened Gossip
  import opened Wrappers

  datatype World = World(nodes: map<NodeId, Node>, sent: set<Message>)

  /** All nodes have just been created, each under its own ID. */
  ghost predicate IsInit(w: World) {
    && w.sent == {}
    && forall id :: id in w.nodes ==> exists addr, now :: w.nodes[id] == NewNode(id, addr, now)
  }

  /** What a node does by itself. */
  datatype Action =
    | Leave
    | SetMetadata(key: string, value: string)
    | StartSuspicion(node: NodeId)
    | ClearSuspicion(node: NodeId)
    | CheckSuspicions(expired: seq<NodeId>)

  ghost function Act(n: Node, a: Action, now: int): Node
    requires WellFormed(n)
  {
    match a
    case Leave => DoLeave(n, now)
    case SetMetadata(k, v) => DoSetMetadata(n, k, v, now)
    case StartSuspicion(id) => DoStartSuspicion(n, id, now)
    case ClearSuspicion(id) => DoClearSuspicion(n, id, now)
    case CheckSuspicions(ids) => ExpireAll(n, ids, now)
  }

  function Put(w: World, n: Node, more: set<Message>): World {
    World(w.nodes[n.id := n], w.sent + more)
  }

  function Reply(r: Option<Message>): set<Message> {
    if r.Some? then {r.value} else {}
  }

  function Queued(n: Node): set<Message> {
    set m | m in n.broadcasts
  }

  datatype Event =
    | Acts(id: NodeId, action: Action, now: int)
    | Sends(id: NodeId, kind: Kind, listing: seq<Entry>)         // gossip, join or pull: the whole table
    | Handles(id: NodeId, message: Message, listing: seq<Entry>) // HandleMessage and its reply
    | Merges(id: NodeId, message: Message)                       // the response to a join or a gossip round

  /** Everything a node queues for broadcast counts as sent. */
  ghost predicate ActsNext(w: World, n: Node, a: Action, now: int, w': World)
    requires WellFormed(n)
  {
    var m := Act(n, a, now);
    w' == Put(w, m, Queued(m))
  }

  ghost predicate SendsNext(w: World, n: Node, kind: Kind, listing: seq<Entry>, w': World) {
    && IsListing(n.table, listing)
    && w' == Put(w, n.(seqNo := n.seqNo + 1), {Message(kind, listing, n.id, n.seqNo + 1)})
  }

  ghost predicate HandlesNext(w: World, n: Node, msg: Message, listing: seq<Entry>, w': World) {
    && msg in w.sent
    && var (m, reply) := DoHandle(n, msg, listing);
    && (msg.kind.Pull? || msg.kind.PushPull? ==> IsListing(m.table, listing))
    && w' == Put(w, m, Reply(reply))
  }

  ghost predicate MergesNext(w: World, n: Node, msg: Message, w': World) {
    && msg in w.sent
    && w' == Put(w, n.(table := Merge(n.table, msg.states)), {})
  }

  ghost predicate Next(w: World, e: Event, w': World) {
    && e.id in w.nodes && WellFormed(w.nodes[e.id])
    && var n := w.nodes[e.id];
    match e
    case Acts(_, a, now) => ActsNext(w, n, a, now, w')
    case Sends(_, kind, listing) => SendsNext(w, n, kind, listing, w')
    case Handles(_, m, listing) => HandlesNext(w, n, m, listing, w')
    case Merges(_, m) => MergesNext(w, n, m, w')
  }

  ghost predicate Steps(w: World, w': World) {
    exists e :: Next(w, e, w')
  }

  ghost predicate IsRun(run: seq<World>) {
    && |run| > 0
    && IsInit(run[0])
    && forall i :: 0 < i < |run| ==> Steps(run[i - 1], run[i])
  }

  // ---------- the invariant ----------

  /** How far every node has come. */
  type Clock = map<NodeId, nat>

  /** `e` speaks of a node of the world, at an incarnation that node has reached. */
  predicate Bounded(c: Clock, e: Entry) {
    e.node in c && e.incarnation <= c[e.node]
  }

  ghost predicate AllBounded(c: Clock, es: seq<Entry>) {
    forall i :: 0 <= i < |es| ==> Bounded(c, es[i])
  }

  ghost predicate TableBounded(c: Clock, t: Table) {
    forall id :: id in t ==> t[id].node == id && id in c && t[id].incarnation <= c[id]
  }

  ghost predicate QueueBounded(c: Clock, q: seq<Message>) {
    forall i :: 0 <= i < |q| ==> AllBounded(c, q[i].states)
  }

  ghost predicate SentBounded(c: Clock, sent: set<Message>) {
    forall m :: m in sent ==> AllBounded(c, m.states)
  }

  /** The own entry carries exactly the own incarnation, and nothing the node holds is ahead of its subject. */
  ghost predicate NodeOk(c: Clock, id: NodeId, n: Node) {
    && n.id == id && id in n.table
    && n.table[id].incarnation == n.incarnation
    && id in c && c[id] == n.incarnation
    && TableBounded(c, n.table)
    && QueueBounded(c, n.broadcasts)
  }

  ghost predicate NodesOk(c: Clock, nodes: map<NodeId, Node>) {
    forall id :: id in nodes ==> NodeOk(c, id, nodes[id])
  }

  /** The invariant; `NodeOk` makes `c` the clock that the nodes themselves show. */
  ghost predicate Inv(c: Clock, w: World) {
    c.Keys == w.nodes.Keys && NodesOk(c, w.nodes) && SentBounded(c, w.sent)
  }

  /** No table forgets a node or takes an incarnation back. */
  ghost predicate Advances(t: Table, t': Table) {
    forall id :: id in t ==> id in t' && t[id].incarnation <= t'[id].incarnation
  }

  // ---------- a clock that moves on ----------

  ghost predicate Later(c: Clock, c': Clock) {
    forall id :: id in c ==> id in c' && c[id] <= c'[id]
  }

  lemma AllStayBounded(c: Clock, c': Clock, es: seq<Entry>)
    requires Later(c, c') && AllBounded(c, es)
    ensures AllBounded(c', es)
  {
    forall i | 0 <= i < |es| ensures Bounded(c', es[i]) { assert Bounded(c, es[i]); }
  }

  lemma TableStaysBounded(c: Clock, c': Clock, t: Table)
    requires Later(c, c') && TableBounded(c, t)
    ensures TableBounded(c', t)
  {
    forall id | id in t ensures id in c' && t[id].incarnation <= c'[id] { assert id in c; }
  }

  lemma QueueStaysBounded(c: Clock, c': Clock, q: seq<Message>)
    requires Later(c, c') && QueueBounded(c, q)
    ensures QueueBounded(c', q)
  {
    forall i | 0 <= i < |q| ensures AllBounded(c', q[i].states) { AllStayBounded(c, c', q[i].states); }
  }

  lemma SentStaysBounded(c: Clock, c': Clock, sent: set<Message>)
    requires Later(c, c') && SentBounded(c, sent)
    ensures SentBounded(c', sent)
  {
    forall m | m in sent ensures AllBounded(c', m.states) { AllStayBounded(c, c', m.states); }
  }

  // ---------- the steps of one node ----------

  /** `m` is a good successor of `n`: same ID, same or next incarnation, nothing taken back. */
  ghost predicate GoodSuccessor(c: Clock, n: Node, m: Node) {
    && m.id == n.id && n.incarnation <= m.incarnation
    && Advances(n.table, m.table)
    && NodeOk(c[n.id := m.incarnation], n.id, m)
  }

  lemma {:induction false} MergeBounded(c: Clock, t: Table, es: seq<Entry>)
    requires TableBounded(c, t) && AllBounded(c, es)
    ensures TableBounded(c, Merge(t, es)) && Advances(t, Merge(t, es))
  {
    if es != [] {
      assert Bounded(c, es[|es| - 1]);
      MergeBounded(c, t, es[..|es| - 1]);
    }
  }

  /** Merging what is bounded leaves the own entry at the own incarnation. */
  lemma MergeGood(c: Clock, n: Node, es: seq<Entry>, seqNo: nat)
    requires NodeOk(c, n.id, n) && AllBounded(c, es)
    ensures GoodSuccessor(c, n, n.(table := Merge(n.table, es), seqNo := seqNo))
  {
    MergeBounded(c, n.table, es);
    assert c[n.id := n.incarnation] == c;
  }

  lemma QueueOk(c: Clock, n: Node, kind: Kind, e: Entry)
    requires NodeOk(c, n.id, n) && Bounded(c, e)
    ensures NodeOk(c, n.id, Queue(n, kind, e))
  {
    var q := n.broadcasts + [Message(kind, [e], n.id, n.seqNo + 1)];
    assert forall i :: 0 <= i < |q| ==>
      q[i] == if i < |n.broadcasts| then n.broadcasts[i] else Message(kind, [e], n.id, n.seqNo + 1);
    assert QueueBounded(c, q);
    assert QueueBounded(c, q[1..]);
  }

  lemma SetStateOk(c: Clock, n: Node, id: NodeId, s: NodeState, now: int)
    requires NodeOk(c, n.id, n) && id in n.table
    ensures NodeOk(c, n.id, SetState(n, id, s, now))
    ensures Advances(n.table, SetState(n, id, s, now).table)
  {
  }

  lemma {:induction false} ExpireAllOk(c: Clock, n: Node, ids: seq<NodeId>, now: int)
    requires NodeOk(c, n.id, n)
    ensures var m := ExpireAll(n, ids, now);
            m.id == n.id && m.incarnation == n.incarnation && NodeOk(c, n.id, m) && Advances(n.table, m.table)
  {
    if ids != [] {
      var init, id := ids[..|ids| - 1], ids[|ids| - 1];
      ExpireAllOk(c, n, init, now);
      var m := ExpireAll(n, init, now);
      var k := m.(suspicions := m.suspicions - {id});
      if id in k.table {
        SetStateOk(c, k, id, Inactive, now);
        var d := SetState(k, id, Inactive, now);
        QueueOk(c, d, Dead, d.table[id]);
      }
    }
  }

  /** The own entry stamped with the next incarnation, under a clock that knows it. */
  lemma ReincarnateOk(c: Clock, n: Node, e: Entry, now: int)
    requires NodeOk(c, n.id, n) && e.node == n.id
    ensures var m := Reincarnate(n, e, now);
            NodeOk(c[n.id := n.incarnation + 1], n.id, m) && Advances(n.table, m.table)
  {
    var c' := c[n.id := n.incarnation + 1];
    assert Later(c, c');
    TableStaysBounded(c, c', n.table);
    QueueStaysBounded(c, c', n.broadcasts);
  }

  lemma ActGood(c: Clock, n: Node, a: Action, now: int)
    requires NodeOk(c, n.id, n)
    ensures GoodSuccessor(c, n, Act(n, a, now))
  {
    assert c[n.id := n.incarnation] == c;
    match a {
      case Leave =>
        ReincarnateOk(c, n, n.table[n.id].(state := Leaving), now);
        var k := Reincarnate(n, n.table[n.id].(state := Leaving), now);
        QueueOk(c[n.id := k.incarnation], k, Alive, k.table[n.id]);
      case SetMetadata(k, v) =>
        var e := n.table[n.id];
        ReincarnateOk(c, n, e.(metadata := e.metadata[k := v]), now);
      case StartSuspicion(id) =>
        if id !in n.suspicions && id in n.table && n.table[id].state == Active {
          var k := n.(suspicions := n.suspicions + {id});
          SetStateOk(c, k, id, Suspect, now);
          var s := SetState(k, id, Suspect, now);
          QueueOk(c, s, SuspectNews, s.table[id]);
        }
      case ClearSuspicion(id) =>
        var k := n.(suspicions := n.suspicions - {id});
        if id in k.table && k.table[id].state == Suspect { SetStateOk(c, k, id, Active, now); }
      case CheckSuspicions(ids) =>
        ExpireAllOk(c, n, ids, now);
    }
  }

  // ---------- the steps of the world ----------

  ghost predicate AllAdvance(w: World, w': World) {
    w'.nodes.Keys == w.nodes.Keys && forall id :: id in w.nodes ==> Advances(w.nodes[id].table, w'.nodes[id].table)
  }

  lemma PutNodes(c: Clock, c': Clock, nodes: map<NodeId, Node>, n: Node)
    requires NodesOk(c, nodes) && NodeOk(c', n.id, n) && Later(c, c')
    requires forall id :: id in c && id != n.id ==> c'[id] == c[id]
    ensures NodesOk(c', nodes[n.id := n])
  {
    forall id | id in nodes && id != n.id
      ensures NodeOk(c', id, nodes[id])
    {
      assert NodeOk(c, id, nodes[id]);
      TableStaysBounded(c, c', nodes[id].table);
      QueueStaysBounded(c, c', nodes[id].broadcasts);
    }
  }

  lemma PutNodesOk(c: Clock, nodes: map<NodeId, Node>, m: Node)
    requires NodesOk(c, nodes) && m.id in nodes && GoodSuccessor(c, nodes[m.id], m)
    ensures NodesOk(c[m.id := m.incarnation], nodes[m.id := m])
    ensures Later(c, c[m.id := m.incarnation])
  {
    assert NodeOk(c, m.id, nodes[m.id]);
    PutNodes(c, c[m.id := m.incarnation], nodes, m);
  }

  lemma PutSentOk(c: Clock, c': Clock, sent: set<Message>, more: set<Message>)
    requires Later(c, c') && SentBounded(c, sent) && SentBounded(c', more)
    ensures SentBounded(c', sent + more)
  {
    SentStaysBounded(c, c', sent);
  }

  /** `m` and `more` are what a good step of node `n` leaves. */
  ghost predicate GoodStep(c: Clock, n: Node, m: Node, more: set<Message>) {
    GoodSuccessor(c, n, m) && SentBounded(c[n.id := m.incarnation], more)
  }

  lemma PutKeys(c: Clock, nodes: map<NodeId, Node>, m: Node)
    requires c.Keys == nodes.Keys && m.id in nodes
    ensures c[m.id := m.incarnation].Keys == nodes[m.id := m].Keys
  {
  }

  /** A good step of one node keeps the world good. */
  lemma PutInv(c: Clock, w: World, m: Node, more: set<Message>)
    requires Inv(c, w) && m.id in w.nodes && GoodStep(c, w.nodes[m.id], m, more) && w.nodes[m.id].id == m.id
    ensures Inv(c[m.id := m.incarnation], Put(w, m, more))
  {
    PutKeys(c, w.nodes, m);
    PutNodesOk(c, w.nodes, m);
    PutSentOk(c, c[m.id := m.incarnation], w.sent, more);
  }

  /** A good step of one node takes no table back. */
  lemma PutAdvances(c: Clock, w: World, m: Node, more: set<Message>)
    requires m.id in w.nodes && GoodStep(c, w.nodes[m.id], m, more)
    ensures AllAdvance(w, Put(w, m, more))
  {
  }

  lemma ListingBounded(c: Clock, t: Table, es: seq<Entry>)
    requires TableBounded(c, t) && IsListing(t, es)
    ensures AllBounded(c, es)
  {
    forall i | 0 <= i < |es| ensures Bounded(c, es[i]) { assert t[es[i].node] == es[i]; }
  }

  lemma QueuedBounded(c: Clock, n: Node)
    requires QueueBounded(c, n.broadcasts)
    ensures SentBounded(c, Queued(n))
  {
    forall m | m in Queued(n)
      ensures AllBounded(c, m.states)
    {
      var i :| 0 <= i < |n.broadcasts| && n.broadcasts[i] == m;
    }
  }

  lemma RenumberGood(c: Clock, n: Node, seqNo: nat)
    requires NodeOk(c, n.id, n)
    ensures GoodSuccessor(c, n, n.(seqNo := seqNo))
  {
    assert c[n.id := n.incarnation] == c;
  }

  lemma ActsGood(c: Clock, n: Node, a: Action, now: int)
    requires NodeOk(c, n.id, n)
    ensures GoodStep(c, n, Act(n, a, now), Queued(Act(n, a, now)))
  {
    ActGood(c, n, a, now);
    var m := Act(n, a, now);
    QueuedBounded(c[n.id := m.incarnation], m);
  }

  lemma SendsGood(c: Clock, n: Node, msg: Message)
    requires NodeOk(c, n.id, n) && AllBounded(c, msg.states)
    ensures GoodStep(c, n, n.(seqNo := n.seqNo + 1), {msg})
  {
    RenumberGood(c, n, n.seqNo + 1);
    assert c[n.id := n.incarnation] == c;
  }

  lemma MergesGood(c: Clock, n: Node, es: seq<Entry>, seqNo: nat, more: set<Message>)
    requires NodeOk(c, n.id, n) && AllBounded(c, es) && SentBounded(c, more)
    ensures GoodStep(c, n, n.(table := Merge(n.table, es), seqNo := seqNo), more)
  {
    MergeGood(c, n, es, seqNo);
    assert c[n.id := n.incarnation] == c;
  }

  lemma NoMergeGood(c: Clock, n: Node, seqNo: nat, more: set<Message>)
    requires NodeOk(c, n.id, n) && SentBounded(c, more)
    ensures GoodStep(c, n, n.(seqNo := seqNo), more)
  {
    RenumberGood(c, n, seqNo);
    assert c[n.id := n.incarnation] == c;
  }

  predicate Merging(k: Kind) { k.Push? || k.PushPull? || k.Alive? || k.SuspectNews? || k.Dead? }

  /** What a handled message does, by kind. */
  lemma HandleShape(n: Node, msg: Message, listing: seq<Entry>)
    ensures var (m, reply) := DoHandle(n, msg, listing);
            && (Merging(msg.kind) ==> m == n.(table := Merge(n.table, msg.states), seqNo := m.seqNo))
            && (!Merging(msg.kind) ==> m == n.(seqNo := m.seqNo))
            && (reply.Some? && reply.value.states != [] ==>
                  (msg.kind.Pull? || msg.kind.PushPull?) && reply.value.states == listing)
  {
  }

  lemma ReplyBounded(c: Clock, n: Node, msg: Message, listing: seq<Entry>)
    requires NodeOk(c, n.id, n) && AllBounded(c, msg.states)
    requires msg.kind.Pull? || msg.kind.PushPull? ==> IsListing(DoHandle(n, msg, listing).0.table, listing)
    ensures SentBounded(c, Reply(DoHandle(n, msg, listing).1))
  {
    HandleShape(n, msg, listing);
    var (m, reply) := DoHandle(n, msg, listing);
    MergeBounded(c, n.table, msg.states);
    if reply.Some? && reply.value.states != [] { ListingBounded(c, m.table, listing); }
  }

  lemma HandlesGood(c: Clock, n: Node, msg: Message, listing: seq<Entry>)
    requires NodeOk(c, n.id, n) && AllBounded(c, msg.states)
    requires msg.kind.Pull? || msg.kind.PushPull? ==> IsListing(DoHandle(n, msg, listing).0.table, listing)
    ensures GoodStep(c, n, DoHandle(n, msg, listing).0, Reply(DoHandle(n, msg, listing).1))
  {
    HandleShape(n, msg, listing);
    ReplyBounded(c, n, msg, listing);
    var (m, reply) := DoHandle(n, msg, listing);
    if Merging(msg.kind) {
      MergesGood(c, n, msg.states, m.seqNo, Reply(reply));
    } else {
      NoMergeGood(c, n, m.seqNo, Reply(reply));
    }
  }

  /** The world that an event leaves, as one node's step. */
  ghost predicate PutsTo(c: Clock, w: World, m: Node, more: set<Message>, w': World) {
    && m.id in w.nodes && w.nodes[m.id].id == m.id
    && GoodStep(c, w.nodes[m.id], m, more)
    && w' == Put(w, m, more)
  }

  ghost predicate StepsTo(c: Clock, w: World, w': World) {
    exists m: Node, more: set<Message> :: PutsTo(c, w, m, more, w')
  }

  lemma ActsSteps(c: Clock, w: World, n: Node, a: Action, now: int, w': World)
    requires n.id in w.nodes && w.nodes[n.id] == n && NodeOk(c, n.id, n) && ActsNext(w, n, a, now, w')
    ensures StepsTo(c, w, w')
  {
    ActsGood(c, n, a, now);
    var m := Act(n, a, now);
    assert PutsTo(c, w, m, Queued(m), w');
  }

  lemma SendsSteps(c: Clock, w: World, n: Node, kind: Kind, listing: seq<Entry>, w': World)
    requires n.id in w.nodes && w.nodes[n.id] == n && NodeOk(c, n.id, n) && SendsNext(w, n, kind, listing, w')
    ensures StepsTo(c, w, w')
  {
    var msg := Message(kind, listing, n.id, n.seqNo + 1);
    assert AllBounded(c, msg.states) by { ListingBounded(c, n.table, listing); }
    SendsGood(c, n, msg);
    assert PutsTo(c, w, n.(seqNo := n.seqNo + 1), {msg}, w');
  }

  lemma HandlesSteps(c: Clock, w: World, n: Node, msg: Message, listing: seq<Entry>, w': World)
    requires n.id in w.nodes && w.nodes[n.id] == n && NodeOk(c, n.id, n) && AllBounded(c, msg.states)
    requires HandlesNext(w, n, msg, listing, w')
    ensures StepsTo(c, w, w')
  {
    HandlesGood(c, n, msg, listing);
    var (m, reply) := DoHandle(n, msg, listing);
    assert PutsTo(c, w, m, Reply(reply), w');
  }

  lemma MergesSteps(c: Clock, w: World, n: Node, msg: Message, w': World)
    requires n.id in w.nodes && w.nodes[n.id] == n && NodeOk(c, n.id, n) && AllBounded(c, msg.states)
    requires MergesNext(w, n, msg, w')
    ensures StepsTo(c, w, w')
  {
    MergesGood(c, n, msg.states, n.seqNo, {});
    assert PutsTo(c, w, n.(table := Merge(n.table, msg.states)), {}, w');
  }

  /** Every step is a good step of one node. */
  lemma NextSteps(c: Clock, w: World, e: Event, w': World)
    requires Inv(c, w) && Next(w, e, w')
    ensures StepsTo(c, w, w')
  {
    var n := w.nodes[e.id];
    assert NodeOk(c, e.id, n);
    match e
    case Acts(_, a, now) => ActsSteps(c, w, n, a, now, w');
    case Sends(_, kind, listing) => SendsSteps(c, w, n, kind, listing, w');
    case Handles(_, m, listing) => HandlesSteps(c, w, n, m, listing, w');
    case Merges(_, m) => MergesSteps(c, w, n, m, w');
  }

  /** Every step keeps the invariant and takes no table back. */
  lemma StepOk(c: Clock, w: World, e: Event, w': World) returns (c': Clock)
    requires Inv(c, w) && Next(w, e, w')
    ensures Inv(c', w') && AllAdvance(w, w')
  {
    NextSteps(c, w, e, w');
    var m: Node, more: set<Message> :| PutsTo(c, w, m, more, w');
    PutInv(c, w, m, more);
    PutAdvances(c, w, m, more);
    c' := c[m.id := m.incarnation];
  }

  lemma InitOk(w: World) returns (c: Clock)
    requires IsInit(w)
    ensures Inv(c, w)
  {
    c := map id | id in w.nodes :: w.nodes[id].incarnation;
    forall id | id in w.nodes
      ensures NodeOk(c, id, w.nodes[id])
    {
      var addr, now :| w.nodes[id] == NewNode(id, addr, now);
    }
  }

  lemma {:induction false} RunInv(run: seq<World>, i: nat) returns (c: Clock)
    requires IsRun(run) && i < |run|
    ensures Inv(c, run[i])
  {
    if i == 0 {
      c := InitOk(run[0]);
    } else {
      c := RunInv(run, i - 1);
      assert Steps(run[i - 1], run[i]);
      var e :| Next(run[i - 1], e, run[i]);
      c := StepOk(c, run[i - 1], e, run[i]);
    }
  }

  /** `e` speaks of a node of `w`, and not of a later incarnation than that node has reached. */
  ghost predicate NotAhead(w: World, e: Entry) {
    e.node in w.nodes && e.incarnation <= w.nodes[e.node].incarnation
  }

  /** In every run no table and no message is ahead of the node it speaks about, and every own entry is exact. */
  lemma NothingAhead(run: seq<World>, i: nat)
    requires IsRun(run) && i < |run|
    ensures forall id, subject :: id in run[i].nodes && subject in run[i].nodes[id].table ==>
              NotAhead(run[i], run[i].nodes[id].table[subject])
    ensures forall m, k :: m in run[i].sent && 0 <= k < |m.states| ==> NotAhead(run[i], m.states[k])
    ensures forall id :: id in run[i].nodes ==>
              id in run[i].nodes[id].table && run[i].nodes[id].table[id].incarnation == run[i].nodes[id].incarnation
  {
    var c := RunInv(run, i);
    var w := run[i];
    forall e | Bounded(c, e) ensures NotAhead(w, e) { assert NodeOk(c, e.node, w.nodes[e.node]); }
    forall id, subject | id in w.nodes && subject in w.nodes[id].table
      ensures NotAhead(w, w.nodes[id].table[subject])
    {
      assert NodeOk(c, id, w.nodes[id]);
      assert Bounded(c, w.nodes[id].table[subject]);
    }
    forall m, k | m in w.sent && 0 <= k < |m.states|
      ensures NotAhead(w, m.states[k])
    {
      assert Bounded(c, m.states[k]);
    }
    forall id | id in w.nodes
      ensures id in w.nodes[id].table && w.nodes[id].table[id].incarnation == w.nodes[id].incarnation
    {
      assert NodeOk(c, id, w.nodes[id]);
    }
  }

  lemma AdvancesOn(a: Table, b: Table, c: Table)
    requires Advances(a, b) && Advances(b, c)
    ensures Advances(a, c)
  {
    forall id | id in a ensures id in c && a[id].incarnation <= c[id].incarnation { assert id in b; }
  }

  lemma RunStep(run: seq<World>, j: nat)
    requires IsRun(run) && 0 < j < |run|
    ensures AllAdvance(run[j - 1], run[j])
  {
    var c := RunInv(run, j - 1);
    assert Steps(run[j - 1], run[j]);
    var e :| Next(run[j - 1], e, run[j]);
    c := StepOk(c, run[j - 1], e, run[j]);
  }

  /** Between any two moments of a run no table forgets a node or takes an incarnation back. */
  lemma {:induction false} TablesAdvance(run: seq<World>, i: nat, j: nat, id: NodeId)
    requires IsRun(run) && i <= j < |run| && id in run[i].nodes
    ensures id in run[j].nodes && Advances(run[i].nodes[id].table, run[j].nodes[id].table)
  {
    if i < j {
      TablesAdvance(run, i, j - 1, id);
      RunStep(run, j);
      AdvancesOn(run[i].nodes[id].table, run[j - 1].nodes[id].table, run[j].nodes[id].table);
    }
  }

  // ---------- where news comes from ----------

  /** What may be said of nodes: which node is in which state. */
  type News = iset<(NodeId, NodeState)>

  ghost predicate Told(g: News, e: Entry) {
    (e.node, e.state) in g
  }

  ghost predicate AllTold(g: News, es: seq<Entry>) {
    forall i :: 0 <= i < |es| ==> Told(g, es[i])
  }

  ghost predicate TableTold(g: News, t: Table) {
    forall id :: id in t ==> t[id].node == id && Told(g, t[id])
  }

  ghost predicate SentTold(g: News, sent: set<Message>) {
    forall m :: m in sent ==> AllTold(g, m.states)
  }

  ghost predicate NodeTold(g: News, n: Node) {
    TableTold(g, n.table) && SentTold(g, Queued(n))
  }

  ghost predicate WorldTold(g: News, w: World) {
    SentTold(g, w.sent) && forall id :: id in w.nodes ==> NodeTold(g, w.nodes[id])
  }

  /** What an action of node `id` lets others say. */
  ghost function NewsOf(id: NodeId, a: Action): News {
    match a
    case Leave => iset{(id, Leaving)}
    case SetMetadata(_, _) => iset{}
    case StartSuspicion(x) => iset{(x, Suspect)}
    case ClearSuspicion(x) => iset{(x, Active)}
    case CheckSuspicions(ids) => iset x | x in ids :: (x, Inactive)
  }

  ghost function NewsIn(e: Event): News {
    if e.Acts? then NewsOf(e.id, e.action) else iset{}
  }

  lemma MoreTold(g: News, h: News, n: Node)
    requires NodeTold(g, n) && g <= h
    ensures NodeTold(h, n)
  {
    SentMoreTold(g, h, Queued(n));
  }

  lemma SentMoreTold(g: News, h: News, sent: set<Message>)
    requires SentTold(g, sent) && g <= h
    ensures SentTold(h, sent)
  {
    forall m | m in sent ensures AllTold(h, m.states) { assert AllTold(g, m.states); }
  }

  lemma {:induction false} MergeTold(g: News, t: Table, es: seq<Entry>)
    requires TableTold(g, t) && AllTold(g, es)
    ensures TableTold(g, Merge(t, es))
  {
    if es != [] {
      assert Told(g, es[|es| - 1]);
      MergeTold(g, t, es[..|es| - 1]);
    }
  }

  lemma QueueTold(g: News, n: Node, kind: Kind, e: Entry)
    requires NodeTold(g, n) && Told(g, e)
    ensures NodeTold(g, Queue(n, kind, e))
  {
    var m := Queue(n, kind, e);
    forall x | x in Queued(m) ensures AllTold(g, x.states) {
      assert x in Queued(n) || x == Message(kind, [e], n.id, n.seqNo + 1);
    }
  }

  lemma SetStateTold(g: News, n: Node, id: NodeId, s: NodeState, now: int)
    requires NodeTold(g, n) && id in n.table && (id, s) in g
    ensures NodeTold(g, SetState(n, id, s, now))
  {
    assert Queued(SetState(n, id, s, now)) == Queued(n);
  }

  lemma {:induction false} ExpireAllTold(g: News, n: Node, ids: seq<NodeId>, now: int)
    requires NodeTold(g, n) && forall x :: x in ids ==> (x, Inactive) in g
    ensures NodeTold(g, ExpireAll(n, ids, now))
  {
    if ids != [] {
      var init, id := ids[..|ids| - 1], ids[|ids| - 1];
      ExpireAllTold(g, n, init, now);
      var m := ExpireAll(n, init, now);
      var k := m.(suspicions := m.suspicions - {id});
      assert Queued(k) == Queued(m);
      if id in k.table {
        SetStateTold(g, k, id, Inactive, now);
        var d := SetState(k, id, Inactive, now);
        QueueTold(g, d, Dead, d.table[id]);
      }
    }
  }

  lemma ReincarnateTold(g: News, n: Node, e: Entry, now: int)
    requires NodeTold(g, n) && WellFormed(n) && e.node == n.id && Told(g, e)
    ensures NodeTold(g, Reincarnate(n, e, now))
  {
    assert Queued(Reincarnate(n, e, now)) == Queued(n);
  }

  lemma ActTold(g: News, n: Node, a: Action, now: int)
    requires NodeTold(g, n) && WellFormed(n) && NewsOf(n.id, a) <= g
    ensures NodeTold(g, Act(n, a, now))
  {
    match a {
      case Leave =>
        assert (n.id, Leaving) in NewsOf(n.id, a);
        ReincarnateTold(g, n, n.table[n.id].(state := Leaving), now);
        var k := Reincarnate(n, n.table[n.id].(state := Leaving), now);
        QueueTold(g, k, Alive, k.table[n.id]);
      case SetMetadata(k, v) =>
        var e := n.table[n.id];
        ReincarnateTold(g, n, e.(metadata := e.metadata[k := v]), now);
      case StartSuspicion(id) =>
        assert (id, Suspect) in NewsOf(n.id, a);
        var k := n.(suspicions := n.suspicions + {id});
        assert Queued(k) == Queued(n);
        if id !in n.suspicions && id in n.table && n.table[id].state == Active {
          SetStateTold(g, k, id, Suspect, now);
          var s := SetState(k, id, Suspect, now);
          QueueTold(g, s, SuspectNews, s.table[id]);
        }
      case ClearSuspicion(id) =>
        assert (id, Active) in NewsOf(n.id, a);
        var k := n.(suspicions := n.suspicions - {id});
        assert Queued(k) == Queued(n);
        if id in k.table && k.table[id].state == Suspect { SetStateTold(g, k, id, Active, now); }
      case CheckSuspicions(ids) =>
        forall x | x in ids ensures (x, Inactive) in g { assert (x, Inactive) in NewsOf(n.id, a); }
        ExpireAllTold(g, n, ids, now);
    }
  }

  lemma PutTold(g: News, w: World, m: Node, more: set<Message>)
    requires WorldTold(g, w) && NodeTold(g, m) && SentTold(g, more)
    ensures WorldTold(g, Put(w, m, more))
  {
  }

  lemma ListingTold(g: News, t: Table, es: seq<Entry>)
    requires TableTold(g, t) && IsListing(t, es)
    ensures AllTold(g, es)
  {
    forall i | 0 <= i < |es| ensures Told(g, es[i]) { assert t[es[i].node] == es[i]; }
  }

  lemma MergedTold(g: News, n: Node, es: seq<Entry>, seqNo: nat)
    requires NodeTold(g, n) && AllTold(g, es)
    ensures NodeTold(g, n.(table := Merge(n.table, es), seqNo := seqNo))
  {
    MergeTold(g, n.table, es);
    assert Queued(n.(table := Merge(n.table, es), seqNo := seqNo)) == Queued(n);
  }

  lemma RenumberTold(g: News, n: Node, seqNo: nat)
    requires NodeTold(g, n)
    ensures NodeTold(g, n.(seqNo := seqNo))
  {
    assert Queued(n.(seqNo := seqNo)) == Queued(n);
  }

  lemma HandleTold(g: News, n: Node, msg: Message, listing: seq<Entry>)
    requires NodeTold(g, n) && AllTold(g, msg.states)
    requires msg.kind.Pull? || msg.kind.PushPull? ==> IsListing(DoHandle(n, msg, listing).0.table, listing)
    ensures NodeTold(g, DoHandle(n, msg, listing).0) && SentTold(g, Reply(DoHandle(n, msg, listing).1))
  {
    HandleShape(n, msg, listing);
    var (m, reply) := DoHandle(n, msg, listing);
    if Merging(msg.kind) { MergedTold(g, n, msg.states, m.seqNo); } else { RenumberTold(g, n, m.seqNo); }
    if reply.Some? && reply.value.states != [] { ListingTold(g, m.table, listing); }
  }

  /** A step spreads only what was told before, and the news of its own action. */
  lemma StepTold(g: News, w: World, e: Event, w': World)
    requires WorldTold(g, w) && Next(w, e, w') && w.nodes[e.id].id == e.id && NewsIn(e) <= g
    ensures WorldTold(g, w')
  {
    var n := w.nodes[e.id];
    match e {
      case Acts(_, a, now) =>
        ActTold(g, n, a, now);
        PutTold(g, w, Act(n, a, now), Queued(Act(n, a, now)));
      case Sends(_, kind, listing) =>
        ListingTold(g, n.table, listing);
        RenumberTold(g, n, n.seqNo + 1);
        PutTold(g, w, n.(seqNo := n.seqNo + 1), {Message(kind, listing, n.id, n.seqNo + 1)});
      case Handles(_, msg, listing) =>
        HandleTold(g, n, msg, listing);
        PutTold(g, w, DoHandle(n, msg, listing).0, Reply(DoHandle(n, msg, listing).1));
      case Merges(_, msg) =>
        MergedTold(g, n, msg.states, n.seqNo);
        PutTold(g, w, n.(table := Merge(n.table, msg.states)), {});
    }
  }

  lemma WorldMoreTold(g: News, h: News, w: World)
    requires WorldTold(g, w) && g <= h
    ensures WorldTold(h, w)
  {
    SentMoreTold(g, h, w.sent);
    forall id | id in w.nodes ensures NodeTold(h, w.nodes[id]) { MoreTold(g, h, w.nodes[id]); }
  }

  /** The run has come to `j` by an action of node `id`. */
  ghost predicate Did(run: seq<World>, j: nat, id: NodeId, a: Action) {
    0 < j < |run| && exists now :: Next(run[j - 1], Acts(id, a, now), run[j])
  }

  /** By moment `i` something has happened that lets others say that `x` is in state `s`. */
  ghost predicate Grounded(run: seq<World>, i: nat, x: NodeId, s: NodeState) {
    match s
    case Active => true
    case Suspect => exists j, id :: 0 < j <= i && Did(run, j, id, StartSuspicion(x))
    case Leaving => exists j :: 0 < j <= i && Did(run, j, x, Leave)
    case Inactive => exists j, id, ids :: 0 < j <= i && x in ids && Did(run, j, id, CheckSuspicions(ids))
    case Other(_) => false
  }

  ghost function NewsBy(run: seq<World>, i: nat): News {
    iset p: (NodeId, NodeState) | Grounded(run, i, p.0, p.1)
  }

  lemma NewsGrow(run: seq<World>, i: nat, e: Event)
    requires 0 < i < |run| && Next(run[i - 1], e, run[i])
    ensures NewsBy(run, i - 1) <= NewsBy(run, i) && NewsIn(e) <= NewsBy(run, i)
  {
    if e.Acts? { assert Did(run, i, e.id, e.action); }
  }

  lemma InitTold(g: News, w: World)
    requires IsInit(w) && forall id :: (id, Active) in g
    ensures WorldTold(g, w)
  {
    forall id | id in w.nodes ensures NodeTold(g, w.nodes[id]) {
      var addr, now :| w.nodes[id] == NewNode(id, addr, now);
    }
  }

  lemma EventOf(w: World, w': World) returns (e: Event)
    requires Steps(w, w')
    ensures Next(w, e, w')
  {
    e :| Next(w, e, w');
  }

  lemma OwnIds(run: seq<World>, i: nat)
    requires IsRun(run) && i < |run|
    ensures forall id :: id in run[i].nodes ==> run[i].nodes[id].id == id
  {
    var c := RunInv(run, i);
    forall id | id in run[i].nodes ensures run[i].nodes[id].id == id { assert NodeOk(c, id, run[i].nodes[id]); }
  }

  lemma StepsTold(run: seq<World>, i: nat, g: News)
    requires IsRun(run) && 0 < i < |run| && WorldTold(g, run[i - 1]) && g == NewsBy(run, i - 1)
    ensures WorldTold(NewsBy(run, i), run[i])
  {
    OwnIds(run, i - 1);
    var e := EventOf(run[i - 1], run[i]);
    NewsGrow(run, i, e);
    WorldMoreTold(g, NewsBy(run, i), run[i - 1]);
    StepTold(NewsBy(run, i), run[i - 1], e, run[i]);
  }

  lemma {:induction false} RunTold(run: seq<World>, i: nat) returns (g: News)
    requires IsRun(run) && i < |run|
    ensures g == NewsBy(run, i) && WorldTold(g, run[i])
  {
    g := NewsBy(run, i);
    if i == 0 {
      InitTold(g, run[0]);
    } else {
      var before := RunTold(run, i - 1);
      StepsTold(run, i, before);
    }
  }

  /**
   In every run, a table or a message says that a node is leaving only after that node has called `Leave`, suspect
   only after some node began to suspect it, inactive only after such a suspicion ran out, and never anything else.
   */
  lemma NewsIsGrounded(run: seq<World>, i: nat)
    requires IsRun(run) && i < |run|
    ensures forall id, x :: id in run[i].nodes && x in run[i].nodes[id].table ==>
              Grounded(run, i, x, run[i].nodes[id].table[x].state)
    ensures forall m, k :: m in run[i].sent && 0 <= k < |m.states| ==>
              Grounded(run, i, m.states[k].node, m.states[k].state)
  {
    var g := RunTold(run, i);
    var w := run[i];
    forall id, x | id in w.nodes && x in w.nodes[id].table ensures Grounded(run, i, x, w.nodes[id].table[x].state) {
      assert NodeTold(g, w.nodes[id]) && Told(g, w.nodes[id].table[x]);
    }
    forall m, k | m in w.sent && 0 <= k < |m.states| ensures Grounded(run, i, m.states[k].node, m.states[k].state) {
      assert AllTold(g, m.states) && Told(g, m.states[k]);
    }
  }

  /** So no two nodes of such a network are ever stuck on an entry. */
  lemma NeverStuck(run: seq<World>, i: nat, a: NodeId, b: NodeId, id: NodeId)
    requires IsRun(run) && i < |run| && a in run[i].nodes && b in run[i].nodes
    ensures !Stuck(run[i].nodes[a].table, run[i].nodes[b].table, id)
  {
    NewsIsGrounded(run, i);
    if id in run[i].nodes[a].table {
      assert Grounded(run, i, id, run[i].nodes[a].table[id].state);
    }
  }
}

/**
 The WHERE-clause splitter and parser of pkg/query/sql_parser.go, for ASCII text.

 A clause is split at OR first and at AND second, at the places where the keyword stands as a word
 outside quotes and parentheses.  The parser of a single condition is a parameter.
 */
module WhereClause {
  import opened Wrappers

  // ---------- characters ----------

  predicate IsSpace(c: char) { c == ' ' || '\t' <= c <= '\r' }

  predicate IsWordChar(c: char) {
    'A' <= c <= 'Z' || 'a' <= c <= 'z' || '0' <= c <= '9' || c == '_'
  }

  function ToUpper(s: string): (u: string)
    ensures |u| == |s|
  {
    seq(|s|, i requires 0 <= i < |s| => UpperChar(s[i]))
  }

  function UpperChar(c: char): char {
    if 'a' <= c <= 'z' then (c as int - 32) as char else c
  }

  function TrimLeft(s: string): (r: string)
    ensures |r| <= |s|
  {
    if s != [] && IsSpace(s[0]) then TrimLeft(s[1..]) else s
  }

  function TrimRight(s: string): (r: string)
    ensures |r| <= |s|
  {
    if s != [] && IsSpace(s[|s| - 1]) then TrimRight(s[..|s| - 1]) else s
  }

  function TrimSpace(s: string): (r: string)
    ensures |r| <= |s|
  {
    TrimRight(TrimLeft(s))
  }

  /** Not empty, and without white space at either end. */
  predicate Trimmed(s: string) {
    s != [] && !IsSpace(s[0]) && !IsSpace(s[|s| - 1])
  }

  lemma TrimPad(s: string)
    requires Trimmed(s)
    ensures TrimSpace(s) == s && TrimSpace(s + " ") == s
  {
    assert (s + " ")[0] == s[0];
    assert (s + " ")[..|s|] == s;
    assert TrimRight(s + " ") == TrimRight(s);
  }

  lemma TrimFront(s: string)
    ensures TrimSpace(" " + s) == TrimSpace(s)
  {
    assert (" " + s)[1..] == s;
  }

  // ---------- scanning ----------

  const NO_QUOTE := '\0'

  /** Parenthesis depth and the open quote, if any. */
  datatype Mode = Mode(depth: int, quote: char)

  const TOP := Mode(0, NO_QUOTE)

  predicate IsQuote(c: char) { c == '"' || c == '\'' }

  function NextMode(m: Mode, c: char): Mode {
    if m.quote == NO_QUOTE then
      if IsQuote(c) then m.(quote := c)
      else if c == '(' then m.(depth := m.depth + 1)
      else if c == ')' then m.(depth := m.depth - 1)
      else m
    else if c == m.quote then m.(quote := NO_QUOTE)
    else m
  }

  /** The mode after a prefix. */
  function ModeAfter(s: string): Mode {
    if s == [] then TOP else NextMode(ModeAfter(s[..|s| - 1]), s[|s| - 1])
  }

  /** The keyword stands at `i` as a word of its own. */
  predicate WordAt(s: string, i: nat, keyword: string) {
    && i + |keyword| <= |s|
    && ToUpper(s[i..i + |keyword|]) == keyword
    && (i == 0 || !IsWordChar(s[i - 1]))
    && (i + |keyword| >= |s| || !IsWordChar(s[i + |keyword|]))
  }

  /** A part is kept when something is left of it after trimming. */
  function Piece(current: string): seq<string> {
    if TrimSpace(current) == "" then [] else [TrimSpace(current)]
  }

  predicate Keyword(k: string) {
    |k| > 0 && forall i :: 0 <= i < |k| ==> 'A' <= k[i] <= 'Z'
  }

  /** The parts from position `i` on, reached in mode `m` with `current` collected. */
  function Scan(s: string, keyword: string, i: nat, m: Mode, current: string): seq<string>
    requires Keyword(keyword) && i <= |s|
    decreases |s| - i
  {
    if i == |s| then Piece(current)
    else
      var m' := NextMode(m, s[i]);
      if m' == TOP && WordAt(s, i, keyword) then Piece(current) + Scan(s, keyword, i + |keyword|, TOP, "")
      else Scan(s, keyword, i + 1, m', current + [s[i]])
  }

  function Split(s: string, keyword: string): seq<string>
    requires Keyword(keyword)
  {
    Scan(s, keyword, 0, TOP, "")
  }

  lemma NoWordAtQuote(s: string, i: nat, keyword: string)
    requires Keyword(keyword) && i < |s| && IsQuote(s[i])
    ensures !WordAt(s, i, keyword)
  {
    if i + |keyword| <= |s| {
      assert ToUpper(s[i..i + |keyword|])[0] == UpperChar(s[i]);
    }
  }

  /** The word test of the splitter. */
  method FindWord(s: string, upper: string, i: nat, keyword: string) returns (found: bool)
    requires upper == ToUpper(s) && i < |s|
    ensures found == WordAt(s, i, keyword)
  {
    if i + |keyword| > |upper| {
      return false;
    }
    assert upper[i..i + |keyword|] == ToUpper(s[i..i + |keyword|]);
    if upper[i..i + |keyword|] != keyword {
      return false;
    }
    var beforeOk := i == 0 || !IsWordChar(s[i - 1]);
    var afterOk := i + |keyword| >= |s| || !IsWordChar(s[i + |keyword|]);
    return beforeOk && afterOk;
  }

  /** One character: the new depth and quote, and whether the keyword stands here. */
  method ReadChar(s: string, upper: string, i: nat, keyword: string, depth: int, quoteChar: char)
    returns (depth': int, quoteChar': char, found: bool)
    requires Keyword(keyword) && upper == ToUpper(s) && i < |s|
    requires quoteChar == NO_QUOTE || IsQuote(quoteChar)
    ensures quoteChar' == NO_QUOTE || IsQuote(quoteChar')
    ensures Mode(depth', quoteChar') == NextMode(Mode(depth, quoteChar), s[i])
    ensures found <==> Mode(depth', quoteChar') == TOP && WordAt(s, i, keyword)
  {
    var c := s[i];
    depth', quoteChar', found := depth, quoteChar, false;
    if quoteChar == NO_QUOTE && IsQuote(c) {
      NoWordAtQuote(s, i, keyword);
      quoteChar' := c;
      return;
    }
    if quoteChar != NO_QUOTE && c == quoteChar {
      NoWordAtQuote(s, i, keyword);
      quoteChar' := NO_QUOTE;
      return;
    }
    if quoteChar == NO_QUOTE {
      if c == '(' {
        depth' := depth + 1;
      } else if c == ')' {
        depth' := depth - 1;
      }
    }
    if depth' == 0 && quoteChar == NO_QUOTE {
      found := FindWord(s, upper, i, keyword);
    }
  }

  method SplitByKeyword(s: string, keyword: string) returns (parts: seq<string>)
    requires Keyword(keyword)
    ensures parts == Split(s, keyword)
  {
    parts := [];
    var current := "";
    var depth, quoteChar := 0, NO_QUOTE;
    var upper := ToUpper(s);
    var i := 0;
    while i < |s|
      invariant 0 <= i <= |s|
      invariant quoteChar == NO_QUOTE || IsQuote(quoteChar)
      invariant parts + Scan(s, keyword, i, Mode(depth, quoteChar), current) == Split(s, keyword)
    {
      var found;
      depth, quoteChar, found := ReadChar(s, upper, i, keyword, depth, quoteChar);
      if found {
        var part := TrimSpace(current);
        Associate(parts, Piece(current), Scan(s, keyword, i + |keyword|, TOP, ""));
        if part != "" {
          parts := parts + [part];
        }
        current := "";
        i := i + |keyword|;
      } else {
        current := current + [s[i]];
        i := i + 1;
      }
    }
    var part := TrimSpace(current);
    if part != "" {
      parts := parts + [part];
    }
  }

  // ---------- every part is shorter ----------

  lemma {:induction false} ScanShorter(s: string, keyword: string, i: nat, m: Mode, current: string, p: string)
    requires Keyword(keyword) && i <= |s| && p in Scan(s, keyword, i, m, current)
    ensures |p| <= |current| + |s| - i
    ensures |Scan(s, keyword, i, m, current)| > 1 ==> |p| < |current| + |s| - i
    decreases |s| - i
  {
    if i < |s| {
      var m' := NextMode(m, s[i]);
      if m' == TOP && WordAt(s, i, keyword) {
        if p !in Piece(current) {
          ScanShorter(s, keyword, i + |keyword|, TOP, "", p);
        }
      } else {
        ScanShorter(s, keyword, i + 1, m', current + [s[i]], p);
      }
    }
  }

  lemma SplitShorter(s: string, keyword: string, p: string)
    requires Keyword(keyword) && |Split(s, keyword)| > 1 && p in Split(s, keyword)
    ensures |p| < |s|
  {
    ScanShorter(s, keyword, 0, TOP, "", p);
  }

  // ---------- joining and splitting ----------

  /** The keyword stands nowhere as a word outside quotes and parentheses. */
  ghost predicate NoTopWord(s: string, keyword: string) {
    forall i :: 0 <= i < |s| && ModeAfter(s[..i + 1]) == TOP ==> !WordAt(s, i, keyword)
  }

  /** Closed quotes, balanced parentheses, and no top-level keyword. */
  ghost predicate Clean(s: string, keyword: string) {
    ModeAfter(s) == TOP && NoTopWord(s, keyword)
  }

  /** From `i` to `j` the scan meets no keyword. */
  ghost predicate Quiet(s: string, keyword: string, i: nat, j: nat)
    requires i <= j <= |s|
  {
    forall x :: i <= x < j && ModeAfter(s[..x + 1]) == TOP ==> !WordAt(s, x, keyword)
  }

  lemma ModeNext(s: string, i: nat)
    requires i < |s|
    ensures ModeAfter(s[..i + 1]) == NextMode(ModeAfter(s[..i]), s[i])
  {
    assert s[..i + 1][..i] == s[..i];
  }

  lemma {:induction false} Skip(s: string, keyword: string, i: nat, j: nat, current: string)
    requires Keyword(keyword) && i <= j <= |s| && Quiet(s, keyword, i, j)
    ensures Scan(s, keyword, i, ModeAfter(s[..i]), current) == Scan(s, keyword, j, ModeAfter(s[..j]), current + s[i..j])
    decreases j - i
  {
    if i == j {
      assert current + s[i..j] == current;
    } else {
      ModeNext(s, i);
      assert ModeAfter(s[..i + 1]) == TOP ==> !WordAt(s, i, keyword);
      Skip(s, keyword, i + 1, j, current + [s[i]]);
      assert current + [s[i]] + s[i + 1..j] == current + s[i..j];
    }
  }

  /** A keyword inside `a` is one inside `a` alone, when a space follows or nothing does. */
  lemma WordInFront(a: string, b: string, x: nat, keyword: string)
    requires Keyword(keyword) && x < |a| && (b == [] || b[0] == ' ')
    ensures WordAt(a + b, x, keyword) <==> WordAt(a, x, keyword)
  {
    var s, e := a + b, x + |keyword|;
    if e <= |a| {
      assert s[x..e] == a[x..e];
    } else if e <= |s| {
      var w := s[x..e];
      assert w[|a| - x] == ' ' && ToUpper(w)[|a| - x] == ' ';
    }
  }

  /** A keyword behind a space is one behind nothing. */
  lemma WordBehind(a: string, b: string, x: nat, keyword: string)
    requires x < |b| && a != [] && a[|a| - 1] == ' '
    ensures WordAt(a + b, |a| + x, keyword) <==> WordAt(b, x, keyword)
  {
    var s, e := a + b, x + |keyword|;
    if e <= |b| {
      assert s[|a| + x..|a| + e] == b[x..e];
    }
  }

  lemma ModeFront(a: string, b: string, x: nat)
    requires x <= |a|
    ensures ModeAfter((a + b)[..x]) == ModeAfter(a[..x])
  {
    assert (a + b)[..x] == a[..x];
  }

  lemma {:induction false} ModeConcat(a: string, b: string)
    requires ModeAfter(a) == TOP
    ensures ModeAfter(a + b) == ModeAfter(b)
  {
    if b == [] {
      assert a + b == a;
    } else {
      ModeConcat(a, b[..|b| - 1]);
      assert (a + b)[..|a + b| - 1] == a + b[..|b| - 1];
    }
  }

  lemma QuietFront(a: string, b: string, keyword: string)
    requires Keyword(keyword) && Clean(a, keyword) && (b == [] || b[0] == ' ')
    ensures Quiet(a + b, keyword, 0, |a|)
    ensures ModeAfter((a + b)[..|a|]) == TOP
  {
    forall x | 0 <= x < |a| && ModeAfter((a + b)[..x + 1]) == TOP ensures !WordAt(a + b, x, keyword) {
      ModeFront(a, b, x + 1);
      WordInFront(a, b, x, keyword);
    }
    assert (a + b)[..|a|] == a;
  }

  lemma SpaceIsNoWord(s: string, i: nat, keyword: string)
    requires Keyword(keyword) && i < |s| && s[i] == ' '
    ensures !WordAt(s, i, keyword)
  {
    if i + |keyword| <= |s| {
      assert ToUpper(s[i..i + |keyword|])[0] == ' ';
    }
  }

  lemma ScanOn(s: string, keyword: string, i: nat, m: Mode, current: string)
    requires Keyword(keyword) && i < |s| && !(NextMode(m, s[i]) == TOP && WordAt(s, i, keyword))
    ensures Scan(s, keyword, i, m, current) == Scan(s, keyword, i + 1, NextMode(m, s[i]), current + [s[i]])
  {
  }

  lemma ScanWord(s: string, keyword: string, i: nat, m: Mode, current: string)
    requires Keyword(keyword) && i < |s| && NextMode(m, s[i]) == TOP && WordAt(s, i, keyword)
    ensures Scan(s, keyword, i, m, current) == Piece(current) + Scan(s, keyword, i + |keyword|, TOP, "")
  {
  }

  /** Behind a space the scan goes as it would on its own. */
  lemma {:induction false} ScanBehind(a: string, b: string, keyword: string, i: nat, m: Mode, current: string)
    requires Keyword(keyword) && a != [] && a[|a| - 1] == ' ' && i <= |b|
    ensures Scan(a + b, keyword, |a| + i, m, current) == Scan(b, keyword, i, m, current)
    decreases |b| - i
  {
    if i < |b| {
      WordBehind(a, b, i, keyword);
      assert (a + b)[|a| + i] == b[i];
      var m' := NextMode(m, b[i]);
      if m' == TOP && WordAt(b, i, keyword) {
        ScanBehind(a, b, keyword, i + |keyword|, TOP, "");
        ScanWord(a + b, keyword, |a| + i, m, current);
        ScanWord(b, keyword, i, m, current);
      } else {
        ScanBehind(a, b, keyword, i + 1, m', current + [b[i]]);
        ScanOn(a + b, keyword, |a| + i, m, current);
        ScanOn(b, keyword, i, m, current);
      }
    }
  }

  /** A space in front of what is collected does not show. */
  lemma {:induction false} ScanPadded(s: string, keyword: string, i: nat, m: Mode, current: string)
    requires Keyword(keyword) && i <= |s|
    ensures Scan(s, keyword, i, m, " " + current) == Scan(s, keyword, i, m, current)
    decreases |s| - i
  {
    TrimFront(current);
    assert Piece(" " + current) == Piece(current);
    if i < |s| {
      if NextMode(m, s[i]) == TOP && WordAt(s, i, keyword) {
        ScanWord(s, keyword, i, m, " " + current);
        ScanWord(s, keyword, i, m, current);
      } else {
        ScanPadded(s, keyword, i + 1, NextMode(m, s[i]), current + [s[i]]);
        assert " " + current + [s[i]] == " " + (current + [s[i]]);
        ScanOn(s, keyword, i, m, " " + current);
        ScanOn(s, keyword, i, m, current);
      }
    }
  }

  lemma SkipFront(a: string, rest: string, keyword: string)
    requires Keyword(keyword) && Clean(a, keyword) && (rest == [] || rest[0] == ' ')
    ensures Split(a + rest, keyword) == Scan(a + rest, keyword, |a|, TOP, a)
  {
    var s := a + rest;
    QuietFront(a, rest, keyword);
    assert s[..0] == [] && "" + s[0..|a|] == a;
    Skip(s, keyword, 0, |a|, "");
  }

  lemma SplitOne(a: string, keyword: string)
    requires Keyword(keyword) && Clean(a, keyword) && Trimmed(a)
    ensures Split(a, keyword) == [a]
  {
    assert a + [] == a;
    SkipFront(a, [], keyword);
    TrimPad(a);
  }

  // ---------- when nothing is split ----------

  /** The first place where the keyword stands at top level. */
  lemma {:induction false} FirstWord(s: string, keyword: string, i: nat, j: nat) returns (x: nat)
    requires i <= j < |s| && ModeAfter(s[..j + 1]) == TOP && WordAt(s, j, keyword)
    ensures i <= x <= j && Quiet(s, keyword, i, x) && ModeAfter(s[..x + 1]) == TOP && WordAt(s, x, keyword)
    decreases j - i
  {
    if ModeAfter(s[..i + 1]) == TOP && WordAt(s, i, keyword) {
      x := i;
    } else {
      x := FirstWord(s, keyword, i + 1, j);
      assert forall y :: i <= y < x && ModeAfter(s[..y + 1]) == TOP ==> y == i || !WordAt(s, y, keyword);
    }
  }

  lemma UpToWord(s: string, keyword: string, x: nat)
    requires Keyword(keyword) && x < |s| && Quiet(s, keyword, 0, x)
    requires ModeAfter(s[..x + 1]) == TOP && WordAt(s, x, keyword)
    ensures Split(s, keyword) == Piece(s[..x]) + Scan(s, keyword, x + |keyword|, TOP, "")
  {
    assert s[..0] == [] && "" + s[0..x] == s[..x];
    Skip(s, keyword, 0, x, "");
    ModeNext(s, x);
    ScanWord(s, keyword, x, ModeAfter(s[..x]), s[..x]);
  }

  lemma WordShortens(s: string, keyword: string, x: nat, p: string)
    requires Keyword(keyword) && x < |s| && Quiet(s, keyword, 0, x) && p in Split(s, keyword)
    requires ModeAfter(s[..x + 1]) == TOP && WordAt(s, x, keyword)
    ensures |p| < |s|
  {
    UpToWord(s, keyword, x);
    if p !in Piece(s[..x]) {
      ScanShorter(s, keyword, x + |keyword|, TOP, "", p);
    }
  }

  lemma NoWordWhole(s: string, keyword: string)
    requires Keyword(keyword) && Trimmed(s) && NoTopWord(s, keyword)
    ensures Split(s, keyword) == [s]
  {
    assert s[..0] == [] && s[..|s|] == s && "" + s[0..|s|] == s;
    Skip(s, keyword, 0, |s|, "");
    TrimPad(s);
  }

  /** A trimmed clause comes out whole exactly when the keyword stands nowhere at top level. */
  lemma SplitWholeExactly(s: string, keyword: string)
    requires Keyword(keyword) && Trimmed(s)
    ensures Split(s, keyword) == [s] <==> NoTopWord(s, keyword)
  {
    if NoTopWord(s, keyword) {
      NoWordWhole(s, keyword);
    } else {
      var j :| 0 <= j < |s| && ModeAfter(s[..j + 1]) == TOP && WordAt(s, j, keyword);
      var x := FirstWord(s, keyword, 0, j);
      if Split(s, keyword) == [s] {
        WordShortens(s, keyword, x, s);
      }
    }
  }

  function Spaced(a: string, keyword: string, b: string): string {
    a + " " + keyword + " " + b
  }

  lemma KeywordUpper(keyword: string)
    requires Keyword(keyword)
    ensures ToUpper(keyword) == keyword
  {
  }

  /** Splitting at the first keyword, which may be written in any case. */
  lemma SplitFirst(a: string, w: string, b: string, keyword: string)
    requires Keyword(keyword) && Clean(a, keyword) && Trimmed(a) && ToUpper(w) == keyword
    ensures Split(Spaced(a, w, b), keyword) == [a] + Split(b, keyword)
  {
    var s := Spaced(a, w, b);
    var rest := " " + w + " " + b;
    assert s == a + rest;
    SkipFront(a, rest, keyword);
    SpaceIsNoWord(s, |a|, keyword);
    assert NextMode(TOP, s[|a|]) == TOP && a + [s[|a|]] == a + " ";
    SplitAtWord(a, w, b, keyword, s, |a| + 1);
  }

  /** The keyword between two spaces is a word. */
  lemma WordBetween(a: string, w: string, b: string, keyword: string, s: string, n: nat)
    requires Keyword(keyword) && ToUpper(w) == keyword && s == Spaced(a, w, b) && n == |a| + 1
    ensures n + |keyword| < |s| && s[n + |keyword|] == ' '
    ensures WordAt(s, n, keyword) && NextMode(TOP, s[n]) == TOP
  {
    var e := n + |keyword|;
    assert s == (a + " ") + (w + (" " + b));
    assert s[n..e] == w;
    assert s[n - 1] == ' ' && s[e] == ' ';
    assert s[n] == w[0] && UpperChar(w[0]) == keyword[0];
  }

  /** After the keyword and its space the scan goes on with `b` alone. */
  lemma ScanFromSpace(front: string, b: string, keyword: string, s: string)
    requires Keyword(keyword) && front != [] && front[|front| - 1] == ' ' && s == front + b
    ensures Scan(s, keyword, |front| - 1, TOP, "") == Split(b, keyword)
  {
    var e := |front| - 1;
    assert s[e] == ' ';
    SpaceIsNoWord(s, e, keyword);
    ScanOn(s, keyword, e, TOP, "");
    assert "" + [s[e]] == " " && " " + "" == " ";
    ScanBehind(front, b, keyword, 0, TOP, " ");
    ScanPadded(b, keyword, 0, TOP, "");
  }

  lemma ScanAfterWord(a: string, w: string, b: string, keyword: string, s: string, e: nat)
    requires Keyword(keyword) && s == Spaced(a, w, b) && e == |a| + 1 + |w|
    ensures Scan(s, keyword, e, TOP, "") == Split(b, keyword)
  {
    var front := a + " " + w + " ";
    assert s == front + b && |front| == e + 1;
    ScanFromSpace(front, b, keyword, s);
  }

  lemma SplitAtWord(a: string, w: string, b: string, keyword: string, s: string, n: nat)
    requires Keyword(keyword) && Trimmed(a) && ToUpper(w) == keyword && s == Spaced(a, w, b) && n == |a| + 1
    ensures Scan(s, keyword, n, TOP, a + " ") == [a] + Split(b, keyword)
  {
    WordBetween(a, w, b, keyword, s, n);
    ScanWord(s, keyword, n, TOP, a + " ");
    TrimPad(a);
    ScanAfterWord(a, w, b, keyword, s, n + |keyword|);
  }

  /** The case of the keyword does not matter. */
  lemma LowerCaseToo(a: string, b: string)
    requires Keyword("AND") && Clean(a, "AND") && Trimmed(a)
    ensures Split(a + " and " + b, "AND") == Split(a + " AND " + b, "AND") == [a] + Split(b, "AND")
  {
    assert ToUpper("and") == "AND" && ToUpper("AND") == "AND";
    SplitFirst(a, "and", b, "AND");
    SplitFirst(a, "AND", b, "AND");
    assert Spaced(a, "and", b) == a + (" " + "and" + " ") + b && " " + "and" + " " == " and ";
    assert Spaced(a, "AND", b) == a + (" " + "AND" + " ") + b && " " + "AND" + " " == " AND ";
  }

  /** Letters, digits and underscores. */
  predicate Identifier(s: string) {
    s != "" && forall i :: 0 <= i < |s| ==>
      'A' <= s[i] <= 'Z' || 'a' <= s[i] <= 'z' || '0' <= s[i] <= '9' || s[i] == '_'
  }

  /** A name is never split, even when the keyword is part of it; it vanishes when it is the keyword. */
  lemma IdentifierIsWhole(s: string, keyword: string)
    requires Keyword(keyword) && Identifier(s)
    ensures Split(s, keyword) == if ToUpper(s) == keyword then [] else [s]
  {
    if ToUpper(s) == keyword {
      assert s[0..|keyword|] == s && WordAt(s, 0, keyword);
      assert UpperChar(s[0]) == keyword[0] && NextMode(TOP, s[0]) == TOP;
      ScanWord(s, keyword, 0, TOP, "");
    } else {
      forall i | 0 <= i < |s| ensures !WordAt(s, i, keyword) {
        if i == 0 && |keyword| == |s| { assert s[0..|s|] == s; }
      }
      NoWordWhole(s, keyword);
    }
  }

  /** The parts with the keyword between them. */
  function Join(parts: seq<string>, keyword: string): string
    requires parts != []
  {
    if |parts| == 1 then parts[0] else Spaced(parts[0], keyword, Join(parts[1..], keyword))
  }

  ghost predicate AllClean(parts: seq<string>, keyword: string) {
    forall i :: 0 <= i < |parts| ==> Clean(parts[i], keyword) && Trimmed(parts[i])
  }

  /** Splitting undoes joining. */
  lemma {:induction false} SplitJoin(parts: seq<string>, keyword: string)
    requires Keyword(keyword) && parts != [] && AllClean(parts, keyword)
    ensures Split(Join(parts, keyword), keyword) == parts
  {
    if |parts| == 1 {
      SplitOne(parts[0], keyword);
    } else {
      SplitJoin(parts[1..], keyword);
      KeywordUpper(keyword);
      SplitFirst(parts[0], keyword, Join(parts[1..], keyword), keyword);
      assert parts == [parts[0]] + parts[1..];
    }
  }

  // ---------- words of the other keyword ----------

  lemma CleanBehind(front: string, b: string, keyword: string, x: nat)
    requires Keyword(keyword) && front != [] && front[|front| - 1] == ' ' && ModeAfter(front) == TOP
    requires NoTopWord(b, keyword) && |front| <= x < |front + b| && ModeAfter((front + b)[..x + 1]) == TOP
    ensures !WordAt(front + b, x, keyword)
  {
    var y := x - |front|;
    WordBehind(front, b, y, keyword);
    assert (front + b)[..x + 1] == front + b[..y + 1];
    ModeConcat(front, b[..y + 1]);
  }

  lemma SpaceKeepsTop(a: string)
    requires ModeAfter(a) == TOP
    ensures ModeAfter(a + " ") == TOP
  {
    assert (a + " ")[..|a|] == a;
  }

  lemma CleanSpaced(a: string, b: string, keyword: string)
    requires Keyword(keyword) && Clean(a, keyword) && Clean(b, keyword)
    ensures Clean(a + " " + b, keyword)
  {
    var s, front := a + " " + b, a + " ";
    assert s == a + (" " + b);
    QuietFront(a, " " + b, keyword);
    SpaceKeepsTop(a);
    ModeConcat(front, b);
    forall x | 0 <= x < |s| && ModeAfter(s[..x + 1]) == TOP ensures !WordAt(s, x, keyword) {
      if x == |a| {
        SpaceIsNoWord(s, x, keyword);
      } else if x > |a| {
        CleanBehind(front, b, keyword, x);
      }
    }
  }

  lemma AndIsNoOr()
    ensures Keyword("OR") && Keyword("AND") && Clean("AND", "OR")
  {
    var w := "AND";
    assert ModeAfter(w) == TOP by {
      assert ModeAfter([]) == TOP;
      ModeNext(w, 0);
      ModeNext(w, 1);
      ModeNext(w, 2);
      assert w[..0] == [] && w[..3] == w;
    }
    forall i | 0 <= i < |w| ensures !WordAt(w, i, "OR") {
      if i + 2 <= |w| {
        assert ToUpper(w[i..i + 2])[0] == w[i] != 'O';
      }
    }
  }

  lemma {:induction false} CleanJoin(parts: seq<string>)
    requires parts != [] && AllClean(parts, "OR")
    ensures Keyword("OR") && Clean(Join(parts, "AND"), "OR") && Trimmed(Join(parts, "AND"))
  {
    AndIsNoOr();
    if |parts| > 1 {
      var rest := Join(parts[1..], "AND");
      CleanJoin(parts[1..]);
      CleanSpaced(parts[0], "AND", "OR");
      CleanSpaced(parts[0] + " " + "AND", rest, "OR");
      assert Join(parts, "AND") == parts[0] + " " + "AND" + " " + rest;
    }
  }

  // ---------- quotes and parentheses protect ----------

  /**
   A clause as it is written: characters, strings in quotes, and groups in parentheses.  Every text with closed
   quotes and balanced parentheses is one; the scanning modes play no part here.
   */
  datatype Atom = Char(c: char) | Quoted(q: char, body: string) | Group(inner: seq<Atom>)

  predicate Proper(a: Atom) {
    match a
    case Char(c) => c != '"' && c != '\'' && c != '(' && c != ')'
    case Quoted(q, body) => (q == '"' || q == '\'') && q !in body
    case Group(inner) => forall i :: 0 <= i < |inner| ==> Proper(inner[i])
  }

  predicate AllProper(ts: seq<Atom>) {
    forall i :: 0 <= i < |ts| ==> Proper(ts[i])
  }

  function Text(a: Atom): string
    decreases a, 0
  {
    match a
    case Char(c) => [c]
    case Quoted(q, body) => [q] + body + [q]
    case Group(inner) => "(" + Written(inner) + ")"
  }

  function Written(ts: seq<Atom>): string
    decreases ts, |ts|
  {
    if ts == [] then "" else Written(ts[..|ts| - 1]) + Text(ts[|ts| - 1])
  }

  /** The mode after `s`, read from mode `m`. */
  function ModeFrom(m: Mode, s: string): Mode {
    if s == [] then m else NextMode(ModeFrom(m, s[..|s| - 1]), s[|s| - 1])
  }

  lemma {:induction false} ModeFromConcat(m: Mode, a: string, b: string)
    ensures ModeFrom(m, a + b) == ModeFrom(ModeFrom(m, a), b)
  {
    if b == [] {
      assert a + b == a;
    } else {
      ModeFromConcat(m, a, b[..|b| - 1]);
      assert (a + b)[..|a + b| - 1] == a + b[..|b| - 1];
    }
  }

  lemma {:induction false} ModeFromTop(s: string)
    ensures ModeFrom(TOP, s) == ModeAfter(s)
  {
    if s != [] { ModeFromTop(s[..|s| - 1]); }
  }

  lemma ModeFromOne(m: Mode, c: char)
    ensures ModeFrom(m, [c]) == NextMode(m, c)
  {
    assert [c][..0] == [];
  }

  lemma {:induction false} InsideQuotes(m: Mode, q: char, body: string)
    requires m.quote == q && IsQuote(q) && q !in body
    ensures ModeFrom(m, body) == m
  {
    if body != [] {
      assert body[|body| - 1] in body;
      assert forall c :: c in body[..|body| - 1] ==> c in body;
      InsideQuotes(m, q, body[..|body| - 1]);
    }
  }

  /** A beginning of a quoted string that is not all of it leaves its quote open. */
  lemma QuotedOpen(m: Mode, q: char, body: string, x: nat)
    requires m.quote == NO_QUOTE && IsQuote(q) && q !in body && 0 < x <= |body| + 1
    ensures ModeFrom(m, Text(Quoted(q, body))[..x]) == m.(quote := q)
  {
    assert Text(Quoted(q, body))[..x] == [q] + body[..x - 1];
    ModeFromConcat(m, [q], body[..x - 1]);
    ModeFromOne(m, q);
    assert forall c :: c in body[..x - 1] ==> c in body;
    InsideQuotes(m.(quote := q), q, body[..x - 1]);
  }

  lemma QuotedCloses(m: Mode, q: char, body: string)
    requires m.quote == NO_QUOTE && IsQuote(q) && q !in body
    ensures ModeFrom(m, Text(Quoted(q, body))) == m
  {
    var text, n := Text(Quoted(q, body)), |body| + 1;
    assert text == text[..n] + [q];
    QuotedOpen(m, q, body, n);
    ModeFromConcat(m, text[..n], [q]);
    ModeFromOne(m.(quote := q), q);
  }

  /** Outside quotes the mode is the same after an atom as before it. */
  lemma {:induction false} AtomCloses(m: Mode, a: Atom)
    requires m.quote == NO_QUOTE && Proper(a)
    ensures ModeFrom(m, Text(a)) == m
    decreases a, 0
  {
    match a {
      case Char(c) => ModeFromOne(m, c);
      case Quoted(q, body) => QuotedCloses(m, q, body);
      case Group(inner) =>
        var deep := m.(depth := m.depth + 1);
        WrittenCloses(deep, inner);
        ModeFromOne(m, '(');
        ModeFromConcat(m, "(", Written(inner));
        ModeFromConcat(m, "(" + Written(inner), ")");
        ModeFromOne(deep, ')');
    }
  }

  lemma {:induction false} WrittenCloses(m: Mode, ts: seq<Atom>)
    requires m.quote == NO_QUOTE && AllProper(ts)
    ensures ModeFrom(m, Written(ts)) == m
    decreases ts, |ts|
  {
    if ts != [] {
      var init, last := ts[..|ts| - 1], ts[|ts| - 1];
      WrittenCloses(m, init);
      AtomCloses(m, last);
      ModeFromConcat(m, Written(init), Text(last));
    }
  }

  /** The mode `m` is inside a quoted string, or at least `d` parentheses deep. */
  predicate Within(m: Mode, d: int) { m.quote != NO_QUOTE || m.depth >= d }

  /** No beginning of a text comes out of the parentheses it stands in. */
  lemma {:induction false} AtomWithin(m: Mode, a: Atom, x: nat)
    requires m.quote == NO_QUOTE && Proper(a) && x <= |Text(a)|
    ensures Within(ModeFrom(m, Text(a)[..x]), m.depth)
    ensures 0 < x < |Text(a)| ==> Within(ModeFrom(m, Text(a)[..x]), m.depth + 1)
    decreases a, 0
  {
    if x == 0 {
      assert Text(a)[..0] == [];
    } else if x == |Text(a)| {
      assert Text(a)[..x] == Text(a);
      AtomCloses(m, a);
    } else {
      match a
      case Quoted(q, body) => QuotedOpen(m, q, body, x);
      case Group(inner) => GroupWithin(m, inner, x);
    }
  }

  lemma {:induction false} GroupWithin(m: Mode, inner: seq<Atom>, x: nat)
    requires m.quote == NO_QUOTE && AllProper(inner) && 0 < x < |Text(Group(inner))|
    ensures Within(ModeFrom(m, Text(Group(inner))[..x]), m.depth + 1)
    decreases inner, |inner| + 1
  {
    var deep := m.(depth := m.depth + 1);
    assert Text(Group(inner))[..x] == "(" + Written(inner)[..x - 1];
    ModeFromConcat(m, "(", Written(inner)[..x - 1]);
    ModeFromOne(m, '(');
    WrittenWithin(deep, inner, x - 1);
  }

  lemma {:induction false} WrittenWithin(m: Mode, ts: seq<Atom>, x: nat)
    requires m.quote == NO_QUOTE && AllProper(ts) && x <= |Written(ts)|
    ensures Within(ModeFrom(m, Written(ts)[..x]), m.depth)
    decreases ts, |ts|
  {
    if ts != [] {
      var init, last := ts[..|ts| - 1], ts[|ts| - 1];
      var n := |Written(init)|;
      if x <= n {
        assert Written(ts)[..x] == Written(init)[..x];
        WrittenWithin(m, init, x);
      } else {
        assert Written(ts)[..x] == Written(init) + Text(last)[..x - n];
        ModeFromConcat(m, Written(init), Text(last)[..x - n]);
        WrittenCloses(m, init);
        AtomWithin(m, last, x - n);
      }
    }
  }

  /** Where atom `k` begins. */
  function Offset(ts: seq<Atom>, k: nat): nat
    requires k <= |ts|
  {
    |Written(ts[..k])|
  }

  lemma {:induction false} WrittenConcat(a: seq<Atom>, b: seq<Atom>)
    ensures Written(a + b) == Written(a) + Written(b)
  {
    if b == [] {
      assert a + b == a;
    } else {
      var init, last := b[..|b| - 1], b[|b| - 1];
      WrittenConcat(a, init);
      assert (a + b)[..|a + b| - 1] == a + init && (a + b)[|a + b| - 1] == last;
      Associate(Written(a), Written(init), Text(last));
    }
  }

  lemma WrittenOne(a: Atom)
    ensures Written([a]) == Text(a)
  {
    assert [a][..0] == [];
    assert "" + Text(a) == Text(a);
  }

  lemma WrittenThree(front: seq<Atom>, a: Atom, back: seq<Atom>, ts: seq<Atom>)
    requires ts == front + ([a] + back)
    ensures Written(ts) == Written(front) + (Text(a) + Written(back))
  {
    WrittenConcat(front, [a] + back);
    WrittenConcat([a], back);
    WrittenOne(a);
  }

  lemma WrittenAround(ts: seq<Atom>, k: nat)
    requires k < |ts|
    ensures Written(ts) == Written(ts[..k]) + (Text(ts[k]) + Written(ts[k + 1..]))
  {
    Around(ts, k);
    WrittenThree(ts[..k], ts[k], ts[k + 1..], ts);
  }

  /** A character of its own is read in the mode of the surrounding text. */
  lemma CharIsTop(ts: seq<Atom>, k: nat)
    requires AllProper(ts) && k < |ts| && ts[k].Char?
    ensures Offset(ts, k) < |Written(ts)| && ModeAfter(Written(ts)[..Offset(ts, k) + 1]) == TOP
  {
    var front := Written(ts[..k]);
    WrittenAround(ts, k);
    assert Written(ts)[..|front| + 1] == front + Text(ts[k]);
    WrittenCloses(TOP, ts[..k]);
    AtomCloses(TOP, ts[k]);
    ModeFromConcat(TOP, front, Text(ts[k]));
    ModeFromTop(front + Text(ts[k]));
  }

  /** The atom that holds position `x`. */
  lemma {:induction false} AtomAt(ts: seq<Atom>, x: nat) returns (k: nat)
    requires x < |Written(ts)|
    ensures k < |ts| && Offset(ts, k) <= x < Offset(ts, k) + |Text(ts[k])|
  {
    var init := ts[..|ts| - 1];
    if x < |Written(init)| {
      k := AtomAt(init, x);
      assert init[..k] == ts[..k];
    } else {
      k := |ts| - 1;
    }
  }

  /** A letter read at top level is a character of its own: quotes and groups hold no such letter. */
  lemma TopIsChar(ts: seq<Atom>, x: nat) returns (k: nat)
    requires AllProper(ts) && x < |Written(ts)| && ModeAfter(Written(ts)[..x + 1]) == TOP
    requires Written(ts)[x] != '"' && Written(ts)[x] != '\'' && Written(ts)[x] != ')'
    ensures k < |ts| && ts[k].Char? && Offset(ts, k) == x
  {
    k := AtomAt(ts, x);
    var front, a := Written(ts[..k]), ts[k];
    var y := x - |front|;
    WrittenAround(ts, k);
    assert Written(ts)[..x + 1] == front + Text(a)[..y + 1];
    assert Written(ts)[x] == Text(a)[y];
    ModeFromTop(front + Text(a)[..y + 1]);
    ModeFromConcat(TOP, front, Text(a)[..y + 1]);
    WrittenCloses(TOP, ts[..k]);
    AtomWithin(TOP, a, y + 1);
  }

  lemma WordIsLetter(s: string, i: nat, keyword: string)
    requires Keyword(keyword) && WordAt(s, i, keyword)
    ensures i < |s| && 'A' <= UpperChar(s[i]) <= 'Z'
  {
    assert ToUpper(s[i..i + |keyword|])[0] == UpperChar(s[i]);
  }

  /** The keyword begins nowhere as a word at a character of its own: only quotes and groups may hold it. */
  ghost predicate OnlyProtected(ts: seq<Atom>, keyword: string) {
    forall k :: 0 <= k < |ts| && ts[k].Char? ==> !WordAt(Written(ts), Offset(ts, k), keyword)
  }

  /** A clause is free of top-level keywords exactly when only its quoted strings and its groups hold them. */
  lemma CleanExactly(ts: seq<Atom>, keyword: string)
    requires Keyword(keyword) && AllProper(ts)
    ensures Clean(Written(ts), keyword) <==> OnlyProtected(ts, keyword)
  {
    var s := Written(ts);
    WrittenCloses(TOP, ts);
    ModeFromTop(s);
    if OnlyProtected(ts, keyword) {
      forall x | 0 <= x < |s| && ModeAfter(s[..x + 1]) == TOP ensures !WordAt(s, x, keyword) {
        if WordAt(s, x, keyword) {
          WordIsLetter(s, x, keyword);
          var k := TopIsChar(ts, x);
        }
      }
    }
    if Clean(s, keyword) {
      forall k | 0 <= k < |ts| && ts[k].Char? ensures !WordAt(s, Offset(ts, k), keyword) { CharIsTop(ts, k); }
    }
  }

  /** And exactly then it is not split. */
  lemma SplitRespectsExactly(ts: seq<Atom>, keyword: string)
    requires Keyword(keyword) && AllProper(ts) && Trimmed(Written(ts))
    ensures Split(Written(ts), keyword) == [Written(ts)] <==> OnlyProtected(ts, keyword)
  {
    CleanExactly(ts, keyword);
    WrittenCloses(TOP, ts);
    ModeFromTop(Written(ts));
    SplitWholeExactly(Written(ts), keyword);
  }

  /** A string in quotes is never split, whatever it says. */
  lemma QuotesProtect(q: char, body: string, keyword: string)
    requires Keyword(keyword) && (q == '"' || q == '\'') && q !in body
    ensures Split([q] + body + [q], keyword) == [[q] + body + [q]]
  {
    var a := Quoted(q, body);
    WrittenOne(a);
    assert Trimmed(Text(a));
    SplitRespectsExactly([a], keyword);
  }

  /** A group in parentheses is never split, whatever it says. */
  lemma ParenthesesProtect(inner: seq<Atom>, keyword: string)
    requires Keyword(keyword) && AllProper(inner)
    ensures Split("(" + Written(inner) + ")", keyword) == ["(" + Written(inner) + ")"]
  {
    var a := Group(inner);
    WrittenOne(a);
    assert Trimmed(Text(a));
    SplitRespectsExactly([a], keyword);
  }

  // ---------- parsing ----------

  datatype Filter<L> = Cond(leaf: L) | Not(inner: Filter<L>) | And(parts: seq<Filter<L>>) | Or(parts: seq<Filter<L>>)

  function Wrap<L>(r: Result<seq<Filter<L>>, string>, combine: seq<Filter<L>> -> Filter<L>): Result<Filter<L>, string> {
    match r
    case Success(fs) => Success(combine(fs))
    case Failure(e) => Failure(e)
  }

  function Parse<L>(single: string -> Result<L, string>, text: string): Result<Filter<L>, string>
    decreases |text|, 1, 0
  {
    var clause := TrimSpace(text);
    if |Split(clause, "OR")| > 1 then
      PartsShorter(clause, "OR");
      Wrap(ParseAll(single, Split(clause, "OR"), |text|), fs => Or(fs))
    else if |Split(clause, "AND")| > 1 then
      PartsShorter(clause, "AND");
      Wrap(ParseAll(single, Split(clause, "AND"), |text|), fs => And(fs))
    else ParseTerm(single, clause, |text|)
  }

  /** A clause without AND and OR: a negation or a single condition. */
  function ParseTerm<L>(single: string -> Result<L, string>, clause: string, ghost n: nat): Result<Filter<L>, string>
    requires |clause| <= n
    decreases n, 0, 0
  {
    if |clause| >= 4 && ToUpper(clause[..4]) == "NOT " then
      match Parse(single, clause[4..])
      case Success(f) => Success(Not(f))
      case Failure(e) => Failure(e)
    else
      match single(clause)
      case Success(leaf) => Success(Cond(leaf))
      case Failure(e) => Failure(e)
  }

  /** The filters of all parts, or the first error. */
  function ParseAll<L>(single: string -> Result<L, string>, parts: seq<string>, ghost n: nat): Result<seq<Filter<L>>, string>
    requires forall i :: 0 <= i < |parts| ==> |parts[i]| < n
    decreases n, 0, |parts|
  {
    if parts == [] then Success([])
    else
      match Parse(single, parts[0])
      case Failure(e) => Failure(e)
      case Success(f) =>
        match ParseAll(single, parts[1..], n)
        case Failure(e) => Failure(e)
        case Success(fs) => Success([f] + fs)
  }

  lemma PartsShorter(clause: string, keyword: string)
    requires Keyword(keyword) && |Split(clause, keyword)| > 1
    ensures forall i :: 0 <= i < |Split(clause, keyword)| ==> |Split(clause, keyword)[i]| < |clause|
  {
    var parts := Split(clause, keyword);
    forall i | 0 <= i < |parts| ensures |parts[i]| < |clause| {
      SplitShorter(clause, keyword, parts[i]);
    }
  }

  // ---------- printing and parsing ----------

  /** A term of a printed filter. */
  ghost predicate Term(t: string) {
    Trimmed(t) && Clean(t, "OR") && Clean(t, "AND")
  }

  ghost predicate Printable(groups: seq<seq<string>>) {
    groups != [] && forall i :: 0 <= i < |groups| ==> PrintableGroup(groups[i])
  }

  ghost predicate PrintableGroup(terms: seq<string>) {
    terms != [] && forall i :: 0 <= i < |terms| ==> Term(terms[i])
  }

  function Joined(groups: seq<seq<string>>): (r: seq<string>)
    requires forall i :: 0 <= i < |groups| ==> groups[i] != []
    ensures |r| == |groups| && forall i :: 0 <= i < |r| ==> r[i] == Join(groups[i], "AND")
  {
    seq(|groups|, i requires 0 <= i < |groups| && groups[i] != [] => Join(groups[i], "AND"))
  }

  /** Groups of terms: AND inside a group, OR between groups. */
  function Print(groups: seq<seq<string>>): string
    requires groups != [] && forall i :: 0 <= i < |groups| ==> groups[i] != []
  {
    Join(Joined(groups), "OR")
  }

  /** Filters of a list of texts, or the first error, given the filter of each. */
  function Collect<L>(rs: seq<Result<Filter<L>, string>>): Result<seq<Filter<L>>, string> {
    if rs == [] then Success([])
    else
      match rs[0]
      case Failure(e) => Failure(e)
      case Success(f) =>
        match Collect(rs[1..])
        case Failure(e) => Failure(e)
        case Success(fs) => Success([f] + fs)
  }

  /** What a group means: its terms, each parsed alone, under AND, or the term itself when it stands alone. */
  ghost function GroupFilter<L>(single: string -> Result<L, string>, terms: seq<string>): Result<Filter<L>, string> {
    var rs := seq(|terms|, i requires 0 <= i < |terms| => Parse(single, terms[i]));
    if |rs| == 1 then rs[0] else Wrap(Collect(rs), fs => And(fs))
  }

  /** What the groups mean: under OR, or the group itself when it stands alone. */
  ghost function GroupsFilter<L>(single: string -> Result<L, string>, groups: seq<seq<string>>): Result<Filter<L>, string> {
    var rs := seq(|groups|, i requires 0 <= i < |groups| => GroupFilter(single, groups[i]));
    if |rs| == 1 then rs[0] else Wrap(Collect(rs), fs => Or(fs))
  }

  lemma {:induction false} ParseAllCollects<L>(single: string -> Result<L, string>, parts: seq<string>, n: nat,
        rs: seq<Result<Filter<L>, string>>)
    requires |parts| == |rs| && forall i :: 0 <= i < |parts| ==> |parts[i]| < n && Parse(single, parts[i]) == rs[i]
    ensures ParseAll(single, parts, n) == Collect(rs)
  {
    if parts != [] {
      ParseAllCollects(single, parts[1..], n, rs[1..]);
    }
  }

  lemma ParseOfTerm<L>(single: string -> Result<L, string>, t: string)
    requires Term(t)
    ensures Parse(single, t) == ParseTerm(single, t, |t|)
  {
    AndIsNoOr();
    TrimPad(t);
    SplitOne(t, "OR");
    SplitOne(t, "AND");
  }

  lemma ParseGroup<L>(single: string -> Result<L, string>, terms: seq<string>)
    requires PrintableGroup(terms)
    ensures Parse(single, Join(terms, "AND")) == GroupFilter(single, terms)
  {
    AndIsNoOr();
    CleanJoin(terms);
    var clause := Join(terms, "AND");
    TrimPad(clause);
    SplitOne(clause, "OR");
    SplitJoin(terms, "AND");
    var rs := seq(|terms|, i requires 0 <= i < |terms| => Parse(single, terms[i]));
    if |terms| > 1 {
      PartsShorter(clause, "AND");
      ParseAllCollects(single, terms, |clause|, rs);
    }
  }

  /** Parsing a printed OR of ANDs gives back exactly that tree, with AND binding tighter. */
  lemma ParsePrint<L>(single: string -> Result<L, string>, groups: seq<seq<string>>)
    requires Printable(groups)
    ensures Parse(single, Print(groups)) == GroupsFilter(single, groups)
  {
    AndIsNoOr();
    var parts := Joined(groups);
    var rs := seq(|groups|, i requires 0 <= i < |groups| => GroupFilter(single, groups[i]));
    forall i | 0 <= i < |parts|
      ensures Clean(parts[i], "OR") && Trimmed(parts[i]) && Parse(single, parts[i]) == rs[i]
    {
      CleanJoin(groups[i]);
      ParseGroup(single, groups[i]);
    }
    if |groups| > 1 {
      var clause := Print(groups);
      JoinTrimmed(parts, "OR");
      TrimPad(clause);
      SplitJoin(parts, "OR");
      PartsShorter(clause, "OR");
      ParseAllCollects(single, parts, |clause|, rs);
    }
  }

  // ---------- negation ----------

  /** `t` under `n` negations, as it is written and as it is meant. */
  function Negations(n: nat, t: string): string {
    if n == 0 then t else "NOT " + Negations(n - 1, t)
  }

  function Negated<L>(n: nat, f: Filter<L>): Filter<L> {
    if n == 0 then f else Not(Negated(n - 1, f))
  }

  /** A term that is not a negation. */
  ghost predicate Condition(t: string) {
    Term(t) && !(&& |t| >= 4 && (t[0] == 'N' || t[0] == 'n') && (t[1] == 'O' || t[1] == 'o')
                 && (t[2] == 'T' || t[2] == 't') && t[3] == ' ')
  }

  lemma NotIsClean(keyword: string)
    requires keyword == "OR" || keyword == "AND"
    ensures Keyword(keyword) && Clean("NOT", keyword)
  {
    AndIsNoOr();
    var w := "NOT";
    if keyword == "AND" {
      PlainClean(w, "AND");
    } else {
      PlainMode(w);
      forall i | 0 <= i < |w| ensures !WordAt(w, i, "OR") {
        if i + 2 <= |w| {
          assert ToUpper(w[i..i + 2])[0] == w[i] && ToUpper(w[i..i + 2])[1] == w[i + 1];
        }
      }
    }
  }

  lemma NotTerm(t: string)
    requires Term(t)
    ensures Term("NOT " + t)
  {
    NotIsClean("OR");
    NotIsClean("AND");
    CleanSpaced("NOT", t, "OR");
    CleanSpaced("NOT", t, "AND");
    assert "NOT" + " " + t == "NOT " + t;
  }

  /** A negation is parsed as the negation of what follows. */
  lemma ParseNot<L>(single: string -> Result<L, string>, t: string)
    requires Term(t)
    ensures Parse(single, "NOT " + t) ==
            if Parse(single, t).Success? then Success(Not(Parse(single, t).value)) else Failure(Parse(single, t).error)
  {
    var s := "NOT " + t;
    NotTerm(t);
    ParseOfTerm(single, s);
    assert s[..4] == "NOT " && s[4..] == t && ToUpper(s[..4]) == "NOT ";
  }

  lemma ParseCondition<L>(single: string -> Result<L, string>, t: string)
    requires Condition(t)
    ensures Parse(single, t) == if single(t).Success? then Success(Cond(single(t).value)) else Failure(single(t).error)
  {
    ParseOfTerm(single, t);
    if |t| >= 4 {
      var u := ToUpper(t[..4]);
      assert u[0] == UpperChar(t[0]) && u[1] == UpperChar(t[1]) && u[2] == UpperChar(t[2]) && u[3] == UpperChar(t[3]);
    }
  }

  /** Any number of negations before a condition gives that many `Not` nodes over it. */
  lemma {:induction false} ParseNegations<L>(single: string -> Result<L, string>, n: nat, t: string)
    requires Condition(t)
    ensures Term(Negations(n, t))
    ensures Parse(single, Negations(n, t)) ==
            if single(t).Success? then Success(Negated(n, Cond(single(t).value))) else Failure(single(t).error)
  {
    if n == 0 {
      ParseCondition(single, t);
    } else {
      ParseNegations(single, n - 1, t);
      NotTerm(Negations(n - 1, t));
      ParseNot(single, Negations(n - 1, t));
    }
  }

  // ---------- BETWEEN ----------

  /** Neither quotes nor parentheses. */
  predicate Plain(s: string) {
    forall i :: 0 <= i < |s| ==> !IsQuote(s[i]) && s[i] != '(' && s[i] != ')'
  }

  lemma {:induction false} PlainMode(s: string)
    requires Plain(s)
    ensures ModeAfter(s) == TOP
  {
    if s != [] {
      PlainMode(s[..|s| - 1]);
    }
  }

  /** Text without the first letter of a keyword does not hold the keyword. */
  lemma PlainClean(s: string, keyword: string)
    requires Keyword(keyword) && Plain(s) && forall i :: 0 <= i < |s| ==> UpperChar(s[i]) != keyword[0]
    ensures Clean(s, keyword)
  {
    PlainMode(s);
    forall i | 0 <= i < |s| ensures !WordAt(s, i, keyword) {
      if i + |keyword| <= |s| {
        assert ToUpper(s[i..i + |keyword|])[0] == UpperChar(s[i]);
      }
    }
  }

  lemma BetweenTerm(field: string, low: string)
    requires Term(field) && Term(low)
    ensures Term(field + " BETWEEN " + low)
  {
    AndIsNoOr();
    var w := "BETWEEN";
    PlainClean(w, "OR");
    PlainClean(w, "AND");
    CleanSpaced(field, w, "OR");
    CleanSpaced(field + " " + w, low, "OR");
    CleanSpaced(field, w, "AND");
    CleanSpaced(field + " " + w, low, "AND");
    assert field + " BETWEEN " + low == field + " " + w + " " + low;
  }

  /** A BETWEEN is taken for two conditions, whatever its field and its bounds. */
  lemma BetweenIsSplit<L>(single: string -> Result<L, string>, field: string, low: string,
        high: string)
    requires Term(field) && Term(low) && Term(high)
    ensures Parse(single, field + " BETWEEN " + low + " AND " + high)
         == GroupFilter(single, [field + " BETWEEN " + low, high])
  {
    BetweenTerm(field, low);
    BetweenText(field, low, high);
    ParseGroup(single, [field + " BETWEEN " + low, high]);
  }

  lemma BetweenText(field: string, low: string, high: string)
    ensures Join([field + " BETWEEN " + low, high], "AND") == field + " BETWEEN " + low + " AND " + high
  {
    var terms := [field + " BETWEEN " + low, high];
    assert terms[1..] == [high];
    SpacedText(terms[0], high);
  }

  lemma SpacedText(a: string, b: string)
    ensures Spaced(a, "AND", b) == a + " AND " + b
  {
    assert a + " " + "AND" + " " + b == a + (" " + "AND" + " ") + b;
    assert " " + "AND" + " " == " AND ";
  }

  lemma BetweenExample()
    ensures Split("f BETWEEN 1 AND 2", "AND") == ["f BETWEEN 1", "2"]
    ensures !NoTopWord("f BETWEEN 1 AND 2", "AND")
  {
    AndIsNoOr();
    var t, c := "f BETWEEN 1", "f BETWEEN 1 AND 2";
    PlainClean(t, "AND");
    PlainClean("2", "AND");
    KeywordUpper("AND");
    SplitFirst(t, "AND", "2", "AND");
    SplitOne("2", "AND");
    assert c == Spaced(t, "AND", "2");
    SplitWholeExactly(c, "AND");
  }

  lemma {:induction false} JoinTrimmed(parts: seq<string>, keyword: string)
    requires parts != [] && forall i :: 0 <= i < |parts| ==> Trimmed(parts[i])
    ensures Trimmed(Join(parts, keyword))
  {
    if |parts| > 1 {
      JoinTrimmed(parts[1..], keyword);
    }
  }
}

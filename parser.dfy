/** The string parser of src/html.c: a position-driven scanner that turns a
    region of a C string into a run-length-compressed instruction list,
    closed by a sentinel, with loop bodies parsed recursively. */
module Parser {
  import opened Html

  /** The character at index `i` of the C string `s`; past the end the
      terminator is read. */
  function At(s: seq<char>, i: nat): char
  {
    if i < |s| then s[i] else Nul
  }

  /** strlen: the index of the first terminator, or the whole length. */
  function StrLen(s: seq<char>): (n: nat)
    ensures n <= |s|
    ensures forall i :: 0 <= i < n ==> s[i] != Nul
    ensures n < |s| ==> s[n] == Nul
  {
    if s == [] || s[0] == Nul then 0 else 1 + StrLen(s[1..])
  }

  /** The exclusive end of the parsed region: a negative `end` means the
      end of the string. */
  function Bound(s: seq<char>, end: int): nat
  {
    if end < 0 then StrLen(s) else end
  }

  /** The number of occurrences of `c` in `s`. */
  function Count(s: seq<char>, c: char): nat
  {
    if s == [] then 0 else (if s[0] == c then 1 else 0) + Count(s[1..], c)
  }

  lemma {:induction false} CountAppend(a: seq<char>, b: seq<char>, c: char)
    ensures Count(a + b, c) == Count(a, c) + Count(b, c)
  {
    if a == [] {
      assert a + b == b;
    } else {
      assert (a + b)[1..] == a[1..] + b;
      CountAppend(a[1..], b, c);
    }
  }

  /** The tokens that share an axis and are counted into one run. */
  predicate IsAxis(c: char)
  {
    c == Plus || c == Minus || c == Next || c == Previous
  }

  /** The other token of an axis. */
  function Opposite(c: char): (o: char)
    requires IsAxis(c)
    ensures IsAxis(o) && o != c
  {
    if c == Plus then Minus
    else if c == Minus then Plus
    else if c == Next then Previous
    else Next
  }

  /** The first position at or after `p` that does not continue a run of
      `a` and `b` characters inside the region ending at `e`. */
  function RunStop(s: seq<char>, p: nat, e: nat, a: char, b: char): (q: nat)
    requires a != Nul && b != Nul
    ensures p <= q
    ensures p < q ==> q <= e && q <= |s|
    ensures forall i :: p <= i < q ==> At(s, i) == a || At(s, i) == b
    ensures q < e ==> At(s, q) != a && At(s, q) != b
    decreases if p < e then e - p else 0
  {
    if p < e && (At(s, p) == a || At(s, p) == b) then RunStop(s, p + 1, e, a, b) else p
  }

  /** Where a scan of one list may stop: at the end of the region, at a
      terminator or at an `l`. */
  predicate Stopped(s: seq<char>, q: nat, e: nat)
  {
    e <= q || At(s, q) == Nul || At(s, q) == LoopEnd
  }

  /** One pass of the scanning loop of html_parse_substring_incremental on
      the character at `p`, which is inside the region and neither a
      terminator nor an `l`: the nodes it appends (none for a comment
      character) and the position of the last character it consumed. */
  function Step(s: seq<char>, p: nat, e: nat): (r: (seq<Node>, nat))
    requires p < e && p < |s| && s[p] != Nul && s[p] != LoopEnd
    ensures p <= r.1
    ensures |r.0| <= 1
    ensures r.0 == [] <==> !IsToken(s[p]) && s[p] != Break
    ensures r.0 != [] ==> r.0[0].kind == s[p]
    ensures s[p] == LoopStart ==> r.0 != [] && r.0[0].diff == 1
    decreases e - p, 0
  {
    var c := s[p];
    if IsAxis(c) then
      var q := RunStop(s, p + 1, e, c, Opposite(c));
      ([Node(c, Count(s[p..q], c) - Count(s[p..q], Opposite(c)), [])], q - 1)
    else if c == Output || c == Input then
      var q := RunStop(s, p + 1, e, c, c);
      ([Node(c, q - p, [])], q - 1)
    else if c == LoopStart then
      var body := ParseFrom(s, p + 1, e);
      ([Node(LoopStart, 1, body.0)], body.1)
    else if c == Break then ([Node(Break, 1, [])], p)
    else ([], p)
  }

  /** The list that html_parse_substring_incremental builds from position
      `p` of `s` in the region ending at `e`, and the position where its
      scan stops. */
  function ParseFrom(s: seq<char>, p: nat, e: nat): (r: (seq<Node>, nat))
    ensures p <= r.1
    ensures Stopped(s, r.1, e)
    decreases if p < e then e - p else 0, 1
  {
    if e <= p || At(s, p) == Nul || At(s, p) == LoopEnd then ([Sentinel], p)
    else
      var step := Step(s, p, e);
      var rest := ParseFrom(s, step.1 + 1, e);
      (step.0 + rest.0, rest.1)
  }

  /** html_parse_string: the list parsed from the whole string. */
  function Parse(s: seq<char>): (r: seq<Node>)
    ensures WellFormed(r)
  {
    ParseWellFormed(s, 0, StrLen(s));
    ParseFrom(s, 0, StrLen(s)).0
  }

  /** The inner loop of html_parse_substring_incremental for `t`/`m` and
      `L`/`H` runs: from the run's first character at `p`, it consumes the
      characters of the same axis, counting +1 for a repeat of the first
      and -1 for its opposite, and stops on the run's last character. */
  method ScanAxisRun(str: seq<char>, p: nat, e: nat) returns (diff: int, last: nat)
    requires p < e && p < |str| && IsAxis(str[p])
    ensures last + 1 == RunStop(str, p + 1, e, str[p], Opposite(str[p]))
    ensures diff == Count(str[p..last + 1], str[p]) - Count(str[p..last + 1], Opposite(str[p]))
  {
    var c := str[p];
    diff := 1;
    var i := p + 1;
    while i < e && (At(str, i) == c || At(str, i) == Opposite(c))
      invariant p < i <= |str|
      invariant RunStop(str, i, e, c, Opposite(c)) == RunStop(str, p + 1, e, c, Opposite(c))
      invariant diff == Count(str[p..i], c) - Count(str[p..i], Opposite(c))
      decreases e - i
    {
      assert str[p..i + 1] == str[p..i] + [str[i]];
      CountAppend(str[p..i], [str[i]], c);
      CountAppend(str[p..i], [str[i]], Opposite(c));
      if At(str, i) == c {
        diff := diff + 1;
      } else {
        diff := diff - 1;
      }
      i := i + 1;
    }
    last := i - 1;
  }

  /** The inner loop for `T`/`M` runs: only exact repeats of the first
      character are consumed, and the difference is the run's length. */
  method ScanRepeatRun(str: seq<char>, p: nat, e: nat) returns (diff: int, last: nat)
    requires p < e && p < |str| && str[p] != Nul
    ensures last + 1 == RunStop(str, p + 1, e, str[p], str[p])
    ensures diff == last + 1 - p
  {
    var c := str[p];
    diff := 1;
    var i := p + 1;
    while i < e && At(str, i) == c
      invariant p < i
      invariant RunStop(str, i, e, c, c) == RunStop(str, p + 1, e, c, c)
      invariant diff == i - p
      decreases e - i
    {
      diff := diff + 1;
      i := i + 1;
    }
    last := i - 1;
  }

  /** One pass of the scanning loop keeps the accumulated list a prefix of
      the list parsed from the start. */
  lemma Advance(s: seq<char>, start: nat, p: nat, e: nat, acc: seq<Node>, step: seq<Node>, q: nat)
    requires p < e && At(s, p) != Nul && At(s, p) != LoopEnd
    requires Step(s, p, e) == (step, q)
    requires ParseFrom(s, start, e).0 == acc + ParseFrom(s, p, e).0
    requires ParseFrom(s, start, e).1 == ParseFrom(s, p, e).1
    ensures ParseFrom(s, start, e).0 == (acc + step) + ParseFrom(s, q + 1, e).0
    ensures ParseFrom(s, start, e).1 == ParseFrom(s, q + 1, e).1
  {
    assert acc + (step + ParseFrom(s, q + 1, e).0) == (acc + step) + ParseFrom(s, q + 1, e).0;
  }

  /** The `switch` of html_parse_substring_incremental's scanning loop for
      the character at `p` (an `l` is handled by the loop itself): the
      nodes it appends and the position of the last character consumed. */
  method ParseCharacterAt(str: seq<char>, p: nat, e: nat) returns (step: seq<Node>, last: nat)
    requires p < e && At(str, p) != Nul && At(str, p) != LoopEnd
    ensures (step, last) == Step(str, p, e)
    decreases e - p, 0
  {
    var c := str[p];
    var diff := 1;
    last := p;
    if IsAxis(c) {
      diff, last := ScanAxisRun(str, p, e);
      step := [Node(c, diff, [])];
    } else if c == Output || c == Input {
      diff, last := ScanRepeatRun(str, p, e);
      step := [Node(c, diff, [])];
    } else if c == LoopStart {
      var body;
      body, last := ParseSubstringIncremental(str, p + 1, e);
      step := [Node(LoopStart, diff, body)];
    } else if c == Break {
      step := [Node(Break, diff, [])];
    } else {
      step := [];
    }
  }

  /** html_parse_substring_incremental. The position is the C `*ptr`, passed
      in and handed back advanced. */
  method ParseSubstringIncremental(str: seq<char>, ptr: nat, end: int) returns (nodes: seq<Node>, ptr': nat)
    ensures nodes == ParseFrom(str, ptr, Bound(str, end)).0
    ensures ptr' == ParseFrom(str, ptr, Bound(str, end)).1
    decreases if ptr < Bound(str, end) then Bound(str, end) - ptr else 0, 1
  {
    var e := if end < 0 then StrLen(str) else end;
    var p := ptr;
    var acc: seq<Node> := [];
    while p < e && At(str, p) != Nul
      invariant ptr <= p
      invariant ParseFrom(str, ptr, e).0 == acc + ParseFrom(str, p, e).0
      invariant ParseFrom(str, ptr, e).1 == ParseFrom(str, p, e).1
      decreases if p < e then e - p else 0
    {
      if At(str, p) == LoopEnd {
        return acc + [Node(LoopEnd, 1, [])], p;
      }
      ghost var p0 := p;
      var step;
      step, p := ParseCharacterAt(str, p, e);
      Advance(str, ptr, p0, e, acc, step, p);
      acc := acc + step;
      p := p + 1;
    }
    nodes, ptr' := acc + [Sentinel], p;
  }

  /** html_parse_substring: parses from `begin` on a copy of the position. */
  method ParseSubstring(str: seq<char>, begin: int, end: int) returns (nodes: seq<Node>)
    requires 0 <= begin
    ensures nodes == ParseFrom(str, begin, Bound(str, end)).0
  {
    var tmp: nat := begin;
    nodes, tmp := ParseSubstringIncremental(str, tmp, end);
  }

  /** html_parse_string: the whole string, up to its terminator. */
  method ParseString(str: seq<char>) returns (nodes: seq<Node>)
    ensures nodes == Parse(str)
  {
    nodes := ParseSubstring(str, 0, -1);
  }

  /** html_parse_character: a lone token (or the break value) becomes a node
      with difference 1, no successor and no loop body; any other
      character gives no node. */
  function ParseCharacter(c: char): (r: Option<Node>)
    ensures r.Some? <==> IsToken(c) || c == Break
    ensures r.Some? ==> r.value.kind == c && r.value.diff == 1 && r.value.body == []
  {
    if IsToken(c) || c == Break then Some(Node(c, 1, [])) else None
  }

  // ---------------------------------------------------------------------
  // Properties of the parsed list

  /** A node the scanning loop appends before the sentinel. */
  predicate Emitted(n: Node)
  {
    (IsAxis(n.kind) && n.body == []) ||
    ((n.kind == Output || n.kind == Input) && n.diff >= 1 && n.body == []) ||
    (n.kind == LoopStart && n.diff == 1) ||
    n == Node(Break, 1, [])
  }

  /** Every parsed list ends in exactly one sentinel, holds only emitted
      nodes before it, and every loop body is itself such a list. */
  predicate WellFormed(s: seq<Node>)
  {
    |s| > 0 && s[|s| - 1] == Sentinel &&
    forall i :: 0 <= i < |s| - 1 ==>
      Emitted(s[i]) && (s[i].kind == LoopStart ==> WellFormed(s[i].body))
  }

  lemma ConsWellFormed(step: seq<Node>, rest: seq<Node>)
    requires |step| <= 1
    requires forall n :: n in step ==> Emitted(n) && (n.kind == LoopStart ==> WellFormed(n.body))
    requires WellFormed(rest)
    ensures WellFormed(step + rest)
  {
    if step != [] {
      var t := step + rest;
      forall i | 0 <= i < |t| - 1
        ensures Emitted(t[i]) && (t[i].kind == LoopStart ==> WellFormed(t[i].body))
      {
        if i > 0 {
          assert t[i] == rest[i - 1];
        } else {
          assert t[i] in step;
        }
      }
    }
  }

  /** The parser always returns a non-empty list closed by an `l` sentinel,
      recursively in every loop body. */
  lemma {:induction false} ParseWellFormed(s: seq<char>, p: nat, e: nat)
    ensures WellFormed(ParseFrom(s, p, e).0)
    decreases if p < e then e - p else 0, 1
  {
    if e <= p || At(s, p) == Nul || At(s, p) == LoopEnd {
    } else {
      var step := Step(s, p, e);
      StepWellFormed(s, p, e);
      ParseWellFormed(s, step.1 + 1, e);
      ConsWellFormed(step.0, ParseFrom(s, step.1 + 1, e).0);
    }
  }

  lemma {:induction false} StepWellFormed(s: seq<char>, p: nat, e: nat)
    requires p < e && p < |s| && s[p] != Nul && s[p] != LoopEnd
    ensures |Step(s, p, e).0| <= 1
    ensures forall n :: n in Step(s, p, e).0 ==> Emitted(n) && (n.kind == LoopStart ==> WellFormed(n.body))
    decreases e - p, 0
  {
    if s[p] == LoopStart {
      ParseWellFormed(s, p + 1, e);
    }
  }

  // ---------------------------------------------------------------------
  // Runs, comments and loops

  /** A run scan stops exactly at the first position that does not continue the run. */
  lemma {:induction false} RunStopAt(s: seq<char>, p: nat, q: nat, e: nat, a: char, b: char)
    requires a != Nul && b != Nul && p <= q
    requires p < q ==> q <= e
    requires forall i :: p <= i < q ==> At(s, i) == a || At(s, i) == b
    requires q < e ==> At(s, q) != a && At(s, q) != b
    ensures RunStop(s, p, e, a, b) == q
    decreases q - p
  {
    if p < q {
      assert At(s, p) == a || At(s, p) == b;
      RunStopAt(s, p + 1, q, e, a, b);
    }
  }

  /** A maximal run of `t`/`m` (or of `L`/`H`) characters becomes one node
      typed by its first character, whose difference is the number of
      characters equal to the first minus the number of opposite ones; the
      parse resumes at the first character after the run. */
  lemma AxisRun(s: seq<char>, p: nat, q: nat, e: nat)
    requires p < q <= e && q <= |s| && IsAxis(s[p])
    requires forall i :: p <= i < q ==> s[i] == s[p] || s[i] == Opposite(s[p])
    requires q < e ==> At(s, q) != s[p] && At(s, q) != Opposite(s[p])
    ensures ParseFrom(s, p, e).0 ==
      [Node(s[p], Count(s[p..q], s[p]) - Count(s[p..q], Opposite(s[p])), [])] + ParseFrom(s, q, e).0
    ensures ParseFrom(s, p, e).1 == ParseFrom(s, q, e).1
  {
    RunStopAt(s, p + 1, q, e, s[p], Opposite(s[p]));
  }

  /** A maximal run of one `T` (or `M`) character becomes one node whose
      difference is the run's length, at least 1. */
  lemma RepeatRun(s: seq<char>, p: nat, q: nat, e: nat)
    requires p < q <= e && q <= |s| && (s[p] == Output || s[p] == Input)
    requires forall i :: p <= i < q ==> s[i] == s[p]
    requires q < e ==> At(s, q) != s[p]
    ensures ParseFrom(s, p, e).0 == [Node(s[p], q - p, [])] + ParseFrom(s, q, e).0
    ensures ParseFrom(s, p, e).1 == ParseFrom(s, q, e).1
  {
    RunStopAt(s, p + 1, q, e, s[p], s[p]);
  }

  /** A character outside the token set yields no node and the scan goes on
      with the next character; a run before it therefore ends there. */
  lemma CommentSkipped(s: seq<char>, p: nat, e: nat)
    requires p < e && p < |s| && s[p] != Nul && !IsToken(s[p]) && s[p] != Break
    ensures ParseFrom(s, p, e) == ParseFrom(s, p + 1, e)
  {
    var rest := ParseFrom(s, p + 1, e);
    assert Step(s, p, e) == ([], p);
    assert [] + rest.0 == rest.0;
  }

  /** A region with no token (and no break value) parses to the sentinel alone. */
  lemma {:induction false} CommentOnly(s: seq<char>, p: nat, e: nat)
    requires forall i :: p <= i < e ==> !IsToken(At(s, i)) && At(s, i) != Break
    ensures ParseFrom(s, p, e).0 == [Sentinel]
    decreases if p < e then e - p else 0
  {
    if p < e && At(s, p) != Nul {
      CommentSkipped(s, p, e);
      CommentOnly(s, p + 1, e);
    }
  }

  /** An `h` owns the list parsed from the next position, which stops at the
      matching `l` (or at a terminator, or at the end of the region); the
      siblings are parsed from the position after that stop. */
  lemma LoopBody(s: seq<char>, p: nat, e: nat)
    requires p < e && At(s, p) == LoopStart
    ensures var body := ParseFrom(s, p + 1, e);
      && (body.1 < e ==> At(s, body.1) == LoopEnd || At(s, body.1) == Nul)
      && ParseFrom(s, p, e).0 == [Node(LoopStart, 1, body.0)] + ParseFrom(s, body.1 + 1, e).0
      && ParseFrom(s, p, e).1 == ParseFrom(s, body.1 + 1, e).1
  {
  }

  /** When no scan in the region can stop early, the parse reaches its end. */
  lemma {:induction false} NoStopReachesEnd(s: seq<char>, p: nat, e: nat)
    requires forall i :: p <= i < e ==> At(s, i) != LoopEnd && At(s, i) != Nul
    ensures e <= ParseFrom(s, p, e).1
  {
  }

  /** An `h` with no matching `l` takes the rest of the region as its body,
      and nothing follows it but the sentinel. */
  lemma UnmatchedLoopStart(s: seq<char>, p: nat, e: nat)
    requires p < e && At(s, p) == LoopStart
    requires e <= ParseFrom(s, p + 1, e).1
    ensures ParseFrom(s, p, e).0 == [Node(LoopStart, 1, ParseFrom(s, p + 1, e).0), Sentinel]
    ensures e < ParseFrom(s, p, e).1
  {
    LoopBody(s, p, e);
  }

  /** In `hhl` the inner loop takes the only `l`, so the outer `h` is left
      unmatched and owns the rest of the string. */
  lemma NestedTakesOnlyLoopEnd()
    ensures Parse([LoopStart, LoopStart, LoopEnd]) ==
      [Node(LoopStart, 1, [Node(LoopStart, 1, [Sentinel]), Sentinel]), Sentinel]
  {
    var s := [LoopStart, LoopStart, LoopEnd];
    assert StrLen(s) == 3;
    assert ParseFrom(s, 2, 3) == ([Sentinel], 2);
    LoopBody(s, 1, 3);
    assert ParseFrom(s, 3, 3) == ([Sentinel], 3);
    assert ParseFrom(s, 1, 3).0 == [Node(LoopStart, 1, [Sentinel]), Sentinel];
    assert ParseFrom(s, 1, 3).1 == 3;
    UnmatchedLoopStart(s, 0, 3);
  }

  /** The parse of a region reads no character past the position where its
      scan stops: when it stops inside the region (at an `l` or a
      terminator), the rest of the string and the region's end do not
      matter. So a stray top-level `l` drops everything after it. */
  lemma {:induction false} ParseLocal(s: seq<char>, t: seq<char>, p: nat, e: nat, e': nat)
    requires ParseFrom(s, p, e).1 < e && ParseFrom(s, p, e).1 < e'
    requires forall i :: p <= i <= ParseFrom(s, p, e).1 ==> At(s, i) == At(t, i)
    ensures ParseFrom(t, p, e') == ParseFrom(s, p, e)
    decreases if p < e then e - p else 0, 1
  {
    var stop := ParseFrom(s, p, e).1;
    if e <= p || At(s, p) == Nul || At(s, p) == LoopEnd {
      assert stop == p;
    } else {
      var step := Step(s, p, e);
      StepLocal(s, t, p, e, e', stop);
      ParseLocal(s, t, step.1 + 1, e, e');
    }
  }

  lemma {:induction false} StepLocal(s: seq<char>, t: seq<char>, p: nat, e: nat, e': nat, stop: nat)
    requires p < e && p < |s| && s[p] != Nul && s[p] != LoopEnd
    requires Step(s, p, e).1 < stop < e && stop < e'
    requires forall i :: p <= i <= stop ==> At(s, i) == At(t, i)
    ensures At(t, p) == s[p] && p < |t|
    ensures Step(t, p, e') == Step(s, p, e)
    decreases e - p, 0
  {
    var c := s[p];
    assert At(s, p) == c;
    var q := Step(s, p, e).1 + 1;
    if IsAxis(c) || c == Output || c == Input {
      var o := if IsAxis(c) then Opposite(c) else c;
      assert q == RunStop(s, p + 1, e, c, o);
      forall i | p <= i < q
        ensures i < |t| && t[i] == s[i]
      {
        assert At(s, i) == s[i] && At(s, i) == At(t, i);
      }
      RunStopAt(t, p + 1, q, e', c, o);
      assert t[p..q] == s[p..q];
    } else if c == LoopStart {
      ParseLocal(s, t, p + 1, e, e');
    }
  }

  // ---------------------------------------------------------------------
  // Worked examples

  /** Parsing one character agrees with the single-character parser: one
      node with difference 1 and then the sentinel, except that a lone `l`
      is itself the end and a lone `h` gets an empty body. */
  lemma SingleCharacter(c: char)
    requires IsToken(c) || c == Break
    ensures c == LoopEnd ==> Parse([c]) == [ParseCharacter(c).value]
    ensures c == LoopStart ==> Parse([c]) == [Node(LoopStart, 1, [Sentinel]), Sentinel]
    ensures c != LoopEnd && c != LoopStart ==> Parse([c]) == [ParseCharacter(c).value, Sentinel]
  {
    var s := [c];
    assert StrLen(s) == 1;
    if IsAxis(c) {
      AxisRun(s, 0, 1, 1);
      assert s[0..1] == [c];
      assert Count([c], c) == 1 && Count([c], Opposite(c)) == 0;
    } else if c == Output || c == Input {
      RepeatRun(s, 0, 1, 1);
    } else if c == LoopStart {
      LoopBody(s, 0, 1);
    }
  }

  /** A comment character between two `t` ends the first run: two nodes. */
  lemma CommentSplitsRun(x: char)
    requires !IsToken(x) && x != Break && x != Nul
    ensures Parse([Plus, x, Plus]) == [Node(Plus, 1, []), Node(Plus, 1, []), Sentinel]
  {
    var s := [Plus, x, Plus];
    assert StrLen(s) == 3;
    AxisRun(s, 2, 3, 3);
    assert s[2..3] == [Plus];
    CommentSkipped(s, 1, 3);
    AxisRun(s, 0, 1, 3);
    assert s[0..1] == [Plus];
  }

  /** A mixed run becomes one node of its own kind with the signed net
      difference: one `L` and two `H` is an `L` node with difference -1. */
  lemma MixedRunNetDifference(c: char)
    requires IsAxis(c)
    ensures Parse([c, Opposite(c), Opposite(c)]) == [Node(c, -1, []), Sentinel]
  {
    var s := [c, Opposite(c), Opposite(c)];
    var o := Opposite(c);
    assert StrLen(s) == 3;
    AxisRun(s, 0, 3, 3);
    assert s[0..3] == s;
    assert s[1..] == [o, o] && s[1..][1..] == [o] && [o][1..] == [];
    assert Count([o], c) == 0 && Count([o], o) == 1;
    assert Count([o, o], c) == 0 && Count([o, o], o) == 2;
    assert Count(s, c) == 1 && Count(s, o) == 2;
  }

  /** A run that cancels out still yields a node, with difference 0. */
  lemma CancellingRun(c: char)
    requires IsAxis(c)
    ensures Parse([c, Opposite(c)]) == [Node(c, 0, []), Sentinel]
  {
    var s := [c, Opposite(c)];
    var o := Opposite(c);
    assert StrLen(s) == 2;
    AxisRun(s, 0, 2, 2);
    assert s[0..2] == s;
    assert s[1..] == [o] && [o][1..] == [];
    assert Count([o], c) == 0 && Count([o], o) == 1;
  }

  /** A run of one output character is one node that repeats it. */
  lemma RepeatedOutput()
    ensures Parse([Output, Output, Output]) == [Node(Output, 3, []), Sentinel]
  {
    var s := [Output, Output, Output];
    assert StrLen(s) == 3;
    RepeatRun(s, 0, 3, 3);
  }

  /** A loop's body is parsed into the node's own list, closed by its own sentinel. */
  lemma LoopExample(c: char)
    requires IsAxis(c)
    ensures Parse([LoopStart, c, LoopEnd]) == [Node(LoopStart, 1, [Node(c, 1, []), Sentinel]), Sentinel]
  {
    var s := [LoopStart, c, LoopEnd];
    assert StrLen(s) == 3;
    AxisRun(s, 1, 2, 3);
    assert s[1..2] == [c] && [c][1..] == [];
    assert Count([c], c) == 1 && Count([c], Opposite(c)) == 0;
    assert ParseFrom(s, 2, 3) == ([Sentinel], 2);
    var inner := [Node(c, 1, []), Sentinel];
    assert ParseFrom(s, 1, 3).0 == inner;
    assert ParseFrom(s, 1, 3).1 == 2;
    LoopBody(s, 0, 3);
    assert ParseFrom(s, 3, 3).0 == [Sentinel];
  }

  /** A stray `l` at the top level ends the list: what follows it is dropped. */
  lemma StrayLoopEnd(rest: seq<char>)
    ensures Parse([Plus, LoopEnd] + rest) == [Node(Plus, 1, []), Sentinel]
  {
    var s := [Plus, LoopEnd] + rest;
    var n := StrLen(s);
    assert s[0] == Plus && s[1] == LoopEnd;
    assert 2 <= n;
    AxisRun(s, 0, 1, n);
    assert s[0..1] == [Plus];
    assert ParseFrom(s, 1, n) == ([Sentinel], 1);
  }

  /** The empty string parses to the sentinel alone. */
  lemma EmptyInput()
    ensures Parse([]) == [Sentinel]
  {
    assert StrLen([]) == 0;
  }
}

/**
 * Splitting the professors column of a lesson into individual instructor
 * names: parenthesised job titles are dropped, initials lose their dots,
 * stray brackets are removed with a stack, whitespace is squashed and the
 * text is split on commas.
 */
module ProfessorNames {
  import opened Text
  import opened Seqs

  /**
   * `re.sub(r'\([^)]*\)', '', s)`: from left to right, every `(` that has a
   * `)` somewhere after it is removed together with everything up to the
   * first such `)`.
   */
  function RemoveParenGroups(s: string): (r: string)
    ensures |r| <= |s|
    ensures forall c :: c in r ==> c in s
    ensures NoClosedGroup(r)
    ensures NoClosedGroup(s) ==> r == s
    ensures '(' !in s ==> r == s
    decreases |s|
  {
    if s == [] then []
    else if s[0] == '(' && IndexOf(s[1..], ')') < |s[1..]| then
      RemoveParenGroups(s[IndexOf(s[1..], ')') + 2..])
    else
      var rest := RemoveParenGroups(s[1..]);
      var r := [s[0]] + rest;
      assert forall j :: 0 < j < |r| ==> r[j] == rest[j - 1];
      assert s[0] == '(' ==> forall j :: 0 < j < |r| ==> r[j] != ')' by {
        if s[0] == '(' {
          forall j | 0 < j < |r| ensures r[j] != ')' {
            assert rest[j - 1] in rest;
          }
        }
      }
      r
  }

  /** No `(` has a `)` anywhere after it: the pattern `\([^)]*\)` finds nothing. */
  predicate NoClosedGroup(s: string)
  {
    forall i, j :: 0 <= i < j < |s| && s[i] == '(' ==> s[j] != ')'
  }

  /** A second pass of the substitution finds nothing left to remove. */
  lemma RemoveParenGroupsIdempotent(s: string)
    ensures RemoveParenGroups(RemoveParenGroups(s)) == RemoveParenGroups(s)
  {
  }

  // ---------------------------------------------------------------------
  // Bracket balancing
  // ---------------------------------------------------------------------

  /** Depth bookkeeping: +1 for `(`, -1 for `)`. */
  function Delta(c: char): int
  {
    if c == '(' then 1 else if c == ')' then -1 else 0
  }

  /**
   * The bracket depth after reading `s` from depth `d`, or -1 as soon as a
   * `)` would close more than was opened.
   */
  function Reach(s: string, d: int): int
    decreases |s|
  {
    if d < 0 then -1
    else if s == [] then d
    else Reach(s[1..], d + Delta(s[0]))
  }

  /** Every `)` closes an earlier `(` and every `(` is closed. */
  predicate Balanced(s: string)
  {
    Reach(s, 0) == 0
  }

  lemma {:induction false} ReachAppend(a: string, b: string, d: int)
    ensures Reach(a + b, d) == Reach(b, Reach(a, d))
    decreases |a|
  {
    if d < 0 {
    } else if a == [] {
      assert a + b == b;
    } else {
      assert (a + b)[1..] == a[1..] + b;
      ReachAppend(a[1..], b, d + Delta(a[0]));
    }
  }

  lemma {:induction false} ReachShift(a: string, d: int, k: nat)
    requires Reach(a, d) >= 0
    ensures Reach(a, d + k) == Reach(a, d) + k
    decreases |a|
  {
    if a != [] {
      ReachShift(a[1..], d + Delta(a[0]), k);
    }
  }

  lemma BalancedConcat(a: string, b: string)
    requires Balanced(a) && Balanced(b)
    ensures Balanced(a + b)
  {
    ReachAppend(a, b, 0);
  }

  lemma BalancedWrap(a: string, b: string)
    requires Balanced(a) && Balanced(b)
    ensures Balanced(a + "(" + b + ")")
  {
    assert a + "(" + b + ")" == a + ("(" + (b + ")"));
    ReachAppend(a, "(" + (b + ")"), 0);
    ReachAppend("(", b + ")", 0);
    assert "("[1..] == [];
    assert Reach("(", 0) == 1;
    ReachAppend(b, ")", 1);
    ReachShift(b, 0, 1);
    assert ")"[1..] == [];
    assert Reach(")", 1) == 0;
  }

  lemma BalancedSnoc(a: string, c: char)
    requires Balanced(a) && c != '(' && c != ')'
    ensures Balanced(a + [c])
  {
    ReachAppend(a, [c], 0);
  }

  /** The state of `remove_unbalanced_brackets` after a prefix: the kept text and the positions of its open `(`. */
  datatype Scan = Scan(result: string, stack: seq<nat>)

  /** One character of the scan: `(` is pushed, `)` pops or is dropped when nothing is open. */
  function ScanStep(st: Scan, c: char): Scan
  {
    if c == '(' then Scan(st.result + [c], st.stack + [|st.result|])
    else if c == ')' then
      if st.stack != [] then Scan(st.result + [c], st.stack[..|st.stack| - 1]) else st
    else Scan(st.result + [c], st.stack)
  }

  function ScanAll(s: string): Scan
    decreases |s|
  {
    if s == [] then Scan([], []) else ScanStep(ScanAll(s[..|s| - 1]), s[|s| - 1])
  }

  /** Increasing positions, all inside a text of length `n`. */
  predicate ValidStack(ps: seq<nat>, n: nat)
  {
    (forall i, j :: 0 <= i < j < |ps| ==> ps[i] < ps[j]) && forall i :: 0 <= i < |ps| ==> ps[i] < n
  }

  /** `for pos in reversed(stack): del result[pos]`. */
  function DeletePositions(s: string, ps: seq<nat>): string
    requires ValidStack(ps, |s|)
    decreases |ps|
  {
    if ps == [] then s
    else
      var p := ps[|ps| - 1];
      DeletePositions(s[..p] + s[p + 1..], ps[..|ps| - 1])
  }

  /** `remove_unbalanced_brackets`: keep matched pairs, drop every `(` or `)` without a partner. */
  function RemoveUnbalancedBrackets(text: string): string
  {
    var st := ScanAll(text);
    ScanShape(text);
    DeletePositions(st.result, st.stack)
  }

  /** The segments between the open `(` of a scan, joined back with `(`. */
  function Interleave(segs: seq<string>): string
    requires |segs| >= 1
    decreases |segs|
  {
    if |segs| == 1 then segs[0] else Interleave(segs[..|segs| - 1]) + "(" + segs[|segs| - 1]
  }

  /** Where `Interleave` puts its `(`. */
  function SepPositions(segs: seq<string>): seq<nat>
    requires |segs| >= 1
    decreases |segs|
  {
    if |segs| == 1 then [] else SepPositions(segs[..|segs| - 1]) + [|Interleave(segs[..|segs| - 1])|]
  }

  lemma {:induction false} SepPositionsValid(segs: seq<string>)
    requires |segs| >= 1
    ensures |SepPositions(segs)| == |segs| - 1
    ensures ValidStack(SepPositions(segs), |Interleave(segs)|)
    ensures forall i :: 0 <= i < |SepPositions(segs)| ==> Interleave(segs)[SepPositions(segs)[i]] == '('
    decreases |segs|
  {
    if |segs| > 1 {
      var init := segs[..|segs| - 1];
      SepPositionsValid(init);
      var ps := SepPositions(segs);
      var full := Interleave(segs);
      assert full == Interleave(init) + "(" + segs[|segs| - 1];
      forall i | 0 <= i < |ps| ensures full[ps[i]] == '(' {
        if i < |ps| - 1 {
          assert ps[i] == SepPositions(init)[i];
          assert full[ps[i]] == Interleave(init)[ps[i]];
        }
      }
    }
  }

  /** Removing the `(` between the segments leaves the segments side by side. */
  lemma {:induction false} DeleteSeparators(segs: seq<string>)
    requires |segs| >= 1
    ensures ValidStack(SepPositions(segs), |Interleave(segs)|)
    ensures DeletePositions(Interleave(segs), SepPositions(segs)) == Concat(segs)
    decreases |segs|
  {
    SepPositionsValid(segs);
    if |segs| > 1 {
      var init := segs[..|segs| - 1];
      var last := segs[|segs| - 1];
      SepPositionsValid(init);
      var s := Interleave(segs);
      var p := |Interleave(init)|;
      assert s == Interleave(init) + "(" + last;
      var rest := s[..p] + s[p + 1..];
      assert s[..p] == Interleave(init);
      assert rest == Interleave(init) + last;
      DeleteSeparators(init);
      DeletePositionsAppend(Interleave(init), SepPositions(init), last);
      assert SepPositions(segs)[..|SepPositions(segs)| - 1] == SepPositions(init);
    }
  }

  /** Text added after the last position is carried through the deletions. */
  lemma {:induction false} DeletePositionsAppend(s: string, ps: seq<nat>, tail: string)
    requires ValidStack(ps, |s|)
    ensures ValidStack(ps, |s + tail|)
    ensures DeletePositions(s + tail, ps) == DeletePositions(s, ps) + tail
    decreases |ps|
  {
    if ps != [] {
      var p := ps[|ps| - 1];
      var s' := s[..p] + s[p + 1..];
      assert (s + tail)[..p] + (s + tail)[p + 1..] == s' + tail;
      DeletePositionsAppend(s', ps[..|ps| - 1], tail);
    }
  }

  lemma SegmentsOpen(prev: seq<string>)
    requires |prev| >= 1
    ensures Interleave(prev + [""]) == Interleave(prev) + "("
    ensures SepPositions(prev + [""]) == SepPositions(prev) + [|Interleave(prev)|]
  {
    assert (prev + [""])[..|prev|] == prev;
  }

  /** Closing the innermost open `(` merges the last two segments. */
  function Merged(prev: seq<string>): (segs: seq<string>)
    requires |prev| >= 2
    ensures |segs| == |prev| - 1 && segs[..|prev| - 2] == prev[..|prev| - 2]
  {
    prev[..|prev| - 2] + [prev[|prev| - 2] + "(" + prev[|prev| - 1] + ")"]
  }

  lemma Assoc5(f: string, a: string, b: string)
    ensures f + "(" + (a + "(" + b + ")") == f + "(" + a + "(" + b + ")"
  {
  }

  lemma SegmentsCloseText(prev: seq<string>)
    requires |prev| >= 2
    ensures Interleave(Merged(prev)) == Interleave(prev) + ")"
  {
    if |prev| == 2 {
      CloseOuter(prev);
    } else {
      CloseNested(prev);
    }
  }

  lemma CloseOuter(prev: seq<string>)
    requires |prev| == 2
    ensures Interleave(Merged(prev)) == Interleave(prev) + ")"
  {
    var m := Merged(prev);
    assert prev[..1][0] == prev[0];
    assert Interleave(prev) == Interleave(prev[..1]) + "(" + prev[1];
    assert Interleave(m) == m[0];
  }

  lemma CloseNested(prev: seq<string>)
    requires |prev| > 2
    ensures Interleave(Merged(prev)) == Interleave(prev) + ")"
  {
    var n := |prev|;
    var a, b := prev[n - 2], prev[n - 1];
    var m := Merged(prev);
    var init := prev[..n - 1];
    assert init[n - 2] == a;
    assert m[n - 2] == a + "(" + b + ")";
    assert Interleave(prev) == Interleave(init) + "(" + b;
    var front := Interleave(prev[..n - 2]);
    assert init[..n - 2] == prev[..n - 2];
    assert Interleave(init) == front + "(" + a;
    assert Interleave(m) == front + "(" + m[n - 2];
    Assoc5(front, a, b);
  }

  lemma SegmentsClosePositions(prev: seq<string>)
    requires |prev| >= 2
    ensures |SepPositions(prev)| == |prev| - 1
    ensures SepPositions(Merged(prev)) == SepPositions(prev)[..|prev| - 2]
  {
    var n := |prev|;
    SepPositionsValid(prev);
    assert prev[..n - 1][..n - 2] == prev[..n - 2];
    var sp1 := SepPositions(prev[..n - 1]);
    SepPositionsValid(prev[..n - 1]);
    assert SepPositions(prev) == sp1 + [|Interleave(prev[..n - 1])|];
    assert SepPositions(prev)[..n - 2] == sp1;
    if n > 2 {
      assert sp1 == SepPositions(prev[..n - 2]) + [|Interleave(prev[..n - 2])|];
    }
  }

  lemma SegmentsExtend(prev: seq<string>, c: char)
    requires |prev| >= 1
    ensures var n := |prev|;
      var segs := prev[..n - 1] + [prev[n - 1] + [c]];
      Interleave(segs) == Interleave(prev) + [c] && SepPositions(segs) == SepPositions(prev)
  {
    var n := |prev|;
    var segs := prev[..n - 1] + [prev[n - 1] + [c]];
    assert segs[..n - 1] == prev[..n - 1];
  }

  lemma ScanAllSnoc(text: string, i: nat)
    requires i < |text|
    ensures ScanAll(text[..i + 1]) == ScanStep(ScanAll(text[..i]), text[i])
  {
    assert text[..i + 1][..i] == text[..i];
  }

  /**
   * The shape of a scan: `S0 ( S1 ( … ( Sm` with every segment balanced and
   * the stack holding exactly the positions of the separating `(`.
   */
  ghost predicate Shaped(st: Scan, segs: seq<string>)
  {
    |segs| >= 1 && st.result == Interleave(segs) && st.stack == SepPositions(segs)
    && forall i :: 0 <= i < |segs| ==> Balanced(segs[i])
  }

  lemma ShapedOpen(st: Scan, prev: seq<string>) returns (segs: seq<string>)
    requires Shaped(st, prev)
    ensures Shaped(ScanStep(st, '('), segs)
  {
    SegmentsOpen(prev);
    segs := prev + [""];
    assert Balanced("");
  }

  lemma ShapedClose(st: Scan, prev: seq<string>) returns (segs: seq<string>)
    requires Shaped(st, prev) && st.stack != []
    ensures Shaped(ScanStep(st, ')'), segs)
  {
    var n := |prev|;
    SepPositionsValid(prev);
    SegmentsCloseText(prev);
    SegmentsClosePositions(prev);
    BalancedWrap(prev[n - 2], prev[n - 1]);
    segs := Merged(prev);
    forall i | 0 <= i < |segs| ensures Balanced(segs[i]) {
      if i < n - 2 {
        assert segs[i] == segs[..n - 2][i];
      }
    }
  }

  lemma ShapedOther(st: Scan, prev: seq<string>, c: char) returns (segs: seq<string>)
    requires Shaped(st, prev) && c != '(' && c != ')'
    ensures Shaped(ScanStep(st, c), segs)
  {
    var n := |prev|;
    SegmentsExtend(prev, c);
    BalancedSnoc(prev[n - 1], c);
    segs := prev[..n - 1] + [prev[n - 1] + [c]];
  }

  lemma {:induction false} ScanSegments(text: string) returns (segs: seq<string>)
    ensures Shaped(ScanAll(text), segs)
    decreases |text|
  {
    if text == [] {
      segs := [""];
      assert Balanced("");
      return;
    }
    var init, c := text[..|text| - 1], text[|text| - 1];
    var prev := ScanSegments(init);
    var st := ScanAll(init);
    assert ScanAll(text) == ScanStep(st, c);
    if c == '(' {
      segs := ShapedOpen(st, prev);
    } else if c == ')' && st.stack != [] {
      segs := ShapedClose(st, prev);
    } else if c == ')' {
      segs := prev;
    } else {
      segs := ShapedOther(st, prev, c);
    }
  }

  /** The scan only drops characters: what it keeps is a subsequence of the text. */
  lemma {:induction false} ScanSubsequence(text: string)
    ensures IsSubsequence(ScanAll(text).result, text)
    decreases |text|
  {
    if text == [] {
      return;
    }
    var init, c := text[..|text| - 1], text[|text| - 1];
    assert text == init + [c];
    ScanSubsequence(init);
    var st := ScanAll(init);
    assert ScanAll(text) == ScanStep(st, c);
    if c == ')' && st.stack == [] {
      SubsequenceAppendRight(st.result, init, [c]);
    } else {
      SubsequenceAppendBoth(st.result, init, [c]);
    }
  }

  lemma ScanShape(text: string)
    ensures ValidStack(ScanAll(text).stack, |ScanAll(text).result|)
  {
    var segs := ScanSegments(text);
    SepPositionsValid(segs);
  }

  /** The segments of a scan are balanced, so side by side they are balanced too. */
  lemma {:induction false} ConcatBalanced(segs: seq<string>)
    requires |segs| >= 1 && forall i :: 0 <= i < |segs| ==> Balanced(segs[i])
    ensures Balanced(Concat(segs))
    decreases |segs|
  {
    if |segs| == 1 {
      assert segs[..0] == [];
      assert Concat(segs) == segs[0];
    } else {
      ConcatBalanced(segs[..|segs| - 1]);
      BalancedConcat(Concat(segs[..|segs| - 1]), segs[|segs| - 1]);
    }
  }

  lemma {:induction false} ConcatSubsequence(segs: seq<string>)
    requires |segs| >= 1
    ensures IsSubsequence(Concat(segs), Interleave(segs))
    decreases |segs|
  {
    if |segs| == 1 {
      assert segs[..0] == [];
      assert Concat(segs) == segs[0];
      SubsequenceRefl(segs[0]);
    } else {
      var init, last := segs[..|segs| - 1], segs[|segs| - 1];
      ConcatSubsequence(init);
      SubsequenceAppendRight(Concat(init), Interleave(init), "(");
      SubsequenceAppendBoth(Concat(init), Interleave(init) + "(", last);
    }
  }

  predicate NotBracket(c: char)
  {
    c != '(' && c != ')'
  }

  /** The scan drops nothing but a `)`. */
  lemma {:induction false} ScanKeepsText(text: string)
    ensures Filter(ScanAll(text).result, NotBracket) == Filter(text, NotBracket)
    decreases |text|
  {
    if text != [] {
      var init, c := text[..|text| - 1], text[|text| - 1];
      assert text == init + [c];
      ScanKeepsText(init);
      var st := ScanAll(init);
      assert ScanAll(text) == ScanStep(st, c);
      FilterAppend(init, [c], NotBracket);
      FilterAppend(st.result, [c], NotBracket);
      FilterOne(c, NotBracket);
    }
  }

  /** The separators `Interleave` adds are brackets. */
  lemma {:induction false} InterleaveKeepsText(segs: seq<string>)
    requires |segs| >= 1
    ensures Filter(Interleave(segs), NotBracket) == Filter(Concat(segs), NotBracket)
    decreases |segs|
  {
    if |segs| == 1 {
      assert segs[..0] == [];
      assert Concat(segs) == segs[0];
    } else {
      var init, last := segs[..|segs| - 1], segs[|segs| - 1];
      InterleaveKeepsText(init);
      FilterAppend(Interleave(init) + "(", last, NotBracket);
      FilterAppend(Interleave(init), "(", NotBracket);
      FilterOne('(', NotBracket);
      FilterAppend(Concat(init), last, NotBracket);
    }
  }

  /**
   * What `remove_unbalanced_brackets` promises: the surviving characters keep
   * their order, only brackets are dropped, and every `)` is matched by an
   * earlier `(`, every `(` by a later `)`.
   */
  lemma RemoveUnbalancedBracketsSound(text: string)
    ensures Balanced(RemoveUnbalancedBrackets(text))
    ensures IsSubsequence(RemoveUnbalancedBrackets(text), text)
    ensures Filter(RemoveUnbalancedBrackets(text), NotBracket) == Filter(text, NotBracket)
  {
    var segs := ScanSegments(text);
    ScanSubsequence(text);
    DeleteSeparators(segs);
    ConcatBalanced(segs);
    ConcatSubsequence(segs);
    SubsequenceTrans(Concat(segs), Interleave(segs), text);
    ScanKeepsText(text);
    InterleaveKeepsText(segs);
  }

  /** Without a `)`, the depth only grows, and strictly when there is a `(`. */
  lemma {:induction false} ReachNoClose(s: string, d: int)
    requires d >= 0 && ')' !in s
    ensures Reach(s, d) >= d
    ensures '(' in s ==> Reach(s, d) > d
    decreases |s|
  {
    if s != [] {
      assert forall c :: c in s[1..] ==> c in s;
      ReachNoClose(s[1..], d + Delta(s[0]));
    }
  }

  /** When no `(` precedes a `)`, the scan never keeps a `)`, and it has pushed only if it met a `(`. */
  lemma {:induction false} ScanNoClose(text: string)
    requires NoClosedGroup(text)
    ensures ')' !in ScanAll(text).result
    ensures ScanAll(text).stack != [] ==> '(' in text
    decreases |text|
  {
    if text != [] {
      var init, c := text[..|text| - 1], text[|text| - 1];
      assert NoClosedGroup(init) by {
        forall i, j | 0 <= i < j < |init| && init[i] == '(' ensures init[j] != ')' {
          assert text[i] == init[i] && text[j] == init[j];
        }
      }
      ScanNoClose(init);
      assert ScanAll(text) == ScanStep(ScanAll(init), c);
      if c == ')' {
        assert '(' !in init by {
          forall i | 0 <= i < |init| ensures init[i] != '(' {
            assert text[i] == init[i] && text[|text| - 1] == ')';
          }
        }
      }
      assert forall x :: x in init ==> x in text;
    }
  }

  /**
   * After the parenthesised groups are removed no `(` has a `)` after it,
   * so the scan keeps no `)` and deletes every `(`: the result is the text
   * without its brackets.
   */
  lemma RemoveUnbalancedBracketsOpenOnly(text: string)
    requires NoClosedGroup(text)
    ensures '(' !in RemoveUnbalancedBrackets(text) && ')' !in RemoveUnbalancedBrackets(text)
    ensures RemoveUnbalancedBrackets(text) == Filter(text, NotBracket)
  {
    var out := RemoveUnbalancedBrackets(text);
    OpenOnlyNoBracket(text);
    RemoveUnbalancedBracketsSound(text);
    FilterKeepsAll(out, NotBracket);
  }

  /** The bracket half: no `)` survives the scan, and a balanced text without `)` has no `(`. */
  lemma OpenOnlyNoBracket(text: string)
    requires NoClosedGroup(text)
    ensures '(' !in RemoveUnbalancedBrackets(text) && ')' !in RemoveUnbalancedBrackets(text)
  {
    var out := RemoveUnbalancedBrackets(text);
    assert ')' !in out by {
      var segs := ScanSegments(text);
      DeleteSeparators(segs);
      ConcatSubsequence(segs);
      SubsequenceMembers(Concat(segs), Interleave(segs));
      ScanNoClose(text);
    }
    RemoveUnbalancedBracketsSound(text);
    ReachNoClose(out, 0);
  }

  /** Deleting the position on top of the first `k` entries of the stack. */
  lemma DeleteLast(result: string, stack: seq<nat>, k: nat)
    requires 0 < k <= |stack| && ValidStack(stack[..k], |result|)
    ensures var pos := stack[k - 1]; var shorter := result[..pos] + result[pos + 1..];
      ValidStack(stack[..k - 1], |shorter|)
      && DeletePositions(shorter, stack[..k - 1]) == DeletePositions(result, stack[..k])
  {
    assert stack[..k][..k - 1] == stack[..k - 1];
    assert stack[..k][k - 1] == stack[k - 1];
  }

  /** The stack loop of `remove_unbalanced_brackets`, followed by the deletion loop. */
  method RemoveUnbalancedBracketsLoop(text: string) returns (out: string)
    ensures out == RemoveUnbalancedBrackets(text)
    ensures Balanced(out) && IsSubsequence(out, text)
    ensures Filter(out, NotBracket) == Filter(text, NotBracket)
  {
    var result: string := [];
    var stack: seq<nat> := [];
    var i := 0;
    while i < |text|
      invariant 0 <= i <= |text|
      invariant Scan(result, stack) == ScanAll(text[..i])
    {
      var c := text[i];
      ghost var before := Scan(result, stack);
      if c == '(' {
        stack := stack + [|result|];
        result := result + [c];
      } else if c == ')' {
        if stack != [] {
          stack := stack[..|stack| - 1];
          result := result + [c];
        }
      } else {
        result := result + [c];
      }
      assert Scan(result, stack) == ScanStep(before, c);
      ScanAllSnoc(text, i);
      i := i + 1;
    }
    assert text[..i] == text;
    ScanShape(text);
    var k := |stack|;
    assert stack[..k] == stack;
    while k > 0
      invariant 0 <= k <= |stack|
      invariant ValidStack(stack[..k], |result|)
      invariant DeletePositions(result, stack[..k]) == RemoveUnbalancedBrackets(text)
    {
      var pos := stack[k - 1];
      DeleteLast(result, stack, k);
      result := result[..pos] + result[pos + 1..];
      k := k - 1;
    }
    out := result;
    RemoveUnbalancedBracketsSound(text);
  }

  // ---------------------------------------------------------------------
  // The name splitter
  // ---------------------------------------------------------------------

  predicate NonEmpty(s: string)
  {
    s != []
  }

  /** A name as the splitter hands it out. */
  ghost predicate WellFormedName(n: string)
  {
    n != [] && Trimmed(n) && NoSpaceRuns(n) && '.' !in n && ',' !in n && '(' !in n && ')' !in n
    && forall i :: 0 <= i < |n| && IsSpace(n[i]) ==> n[i] == ' '
  }

  /** A professors text the cleaning leaves as it is: no brackets or dots, stripped, single plain spaces. */
  ghost predicate PlainText(text: string)
  {
    '(' !in text && ')' !in text && '.' !in text && Clean(text)
  }

  /**
   * The cleaning before the split: parenthesised groups removed, dots
   * turned into spaces, stray brackets removed, the ends stripped and each
   * whitespace run squashed into one space.
   */
  function Cleaned(text: string): string
  {
    SquashSpaces(Strip(RemoveUnbalancedBrackets(ReplaceChar(RemoveParenGroups(text), '.', ' '))))
  }

  /**
   * `extract_professor_names`: empty text gives no names; otherwise the
   * cleaned text split on commas, each piece stripped, empty pieces dropped.
   * Every name is non-empty, stripped, free of dots, commas and brackets,
   * with single plain spaces.
   */
  function ExtractProfessorNames(text: string): (names: seq<string>)
    ensures text == [] ==> names == []
    ensures forall n :: n in names ==> WellFormedName(n)
  {
    if text == [] then []
    else
      var cleaned := Cleaned(text);
      var names := Filter(Map(SplitOn(cleaned, ','), Strip), NonEmpty);
      CleanedText(text);
      CleanedNames(cleaned);
      names
  }

  /** A text that is already plain is only split on commas, each piece stripped, empty pieces dropped. */
  lemma ExtractProfessorNamesPlain(text: string)
    requires PlainText(text)
    ensures ExtractProfessorNames(text) == Filter(Map(SplitOn(text, ','), Strip), NonEmpty)
  {
    if text != [] {
      CleanedPlain(text);
    }
  }

  /** The facts about the cleaned text that every comma-separated piece inherits. */
  ghost predicate CleanText(s: string)
  {
    Trimmed(s) && NoSpaceRuns(s) && '.' !in s && '(' !in s && ')' !in s
    && forall i :: 0 <= i < |s| && IsSpace(s[i]) ==> s[i] == ' '
  }

  lemma NamePiece(cleaned: string, p: string)
    requires CleanText(cleaned) && p in SplitOn(cleaned, ',')
    ensures Strip(p) != [] ==> WellFormedName(Strip(p))
  {
    SplitOnPieces(cleaned, ',');
    var n := Strip(p);
    assert forall c :: c in n ==> c in cleaned;
    forall i | 0 <= i < |n| && IsSpace(n[i]) ensures n[i] == ' ' {
      assert n[i] in cleaned;
    }
  }

  /**
   * The cleaned text is stripped, has single plain spaces only, and holds
   * no dot and no bracket: the first substitution leaves no `(` with a `)`
   * after it, so the stack pass removes every remaining bracket.
   */
  lemma CleanedText(text: string)
    ensures CleanText(Cleaned(text))
  {
    var grouped := RemoveParenGroups(text);
    var dotless := ReplaceChar(grouped, '.', ' ');
    assert '.' !in dotless;
    assert NoClosedGroup(dotless) by {
      forall i, j | 0 <= i < j < |dotless| && dotless[i] == '(' ensures dotless[j] != ')' {
        assert grouped[i] == '(';
      }
    }
    var balanced := RemoveUnbalancedBrackets(dotless);
    RemoveUnbalancedBracketsSound(dotless);
    RemoveUnbalancedBracketsOpenOnly(dotless);
    SubsequenceMembers(balanced, dotless);
    var stripped := Strip(balanced);
    var cleaned := Cleaned(text);
    SquashSpacesTrimmed(stripped);
    forall i | 0 <= i < |cleaned| ensures cleaned[i] != '.' && cleaned[i] != '(' && cleaned[i] != ')' {
      if cleaned[i] != ' ' {
        assert cleaned[i] in stripped;
      }
    }
  }

  /** A plain text goes through the cleaning unchanged. */
  lemma CleanedPlain(text: string)
    ensures PlainText(text) ==> Cleaned(text) == text
  {
    if PlainText(text) {
      var dotless := ReplaceChar(RemoveParenGroups(text), '.', ' ');
      assert dotless == text;
      RemoveUnbalancedBracketsOpenOnly(text);
      FilterKeepsAll(text, NotBracket);
      SquashSpacesPlain(text);
    }
  }

  /** Every non-empty stripped comma piece of a clean text is a well-formed name. */
  lemma CleanedNames(cleaned: string)
    requires CleanText(cleaned)
    ensures forall n :: n in Filter(Map(SplitOn(cleaned, ','), Strip), NonEmpty) ==> WellFormedName(n)
  {
    var parts := SplitOn(cleaned, ',');
    var pieces := Map(parts, Strip);
    forall k | 0 <= k < |parts| ensures NonEmpty(pieces[k]) ==> WellFormedName(pieces[k]) {
      NamePiece(cleaned, parts[k]);
    }
  }
}

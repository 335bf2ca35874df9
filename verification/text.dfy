/**
 * Python string primitives the bot relies on, over `seq<char>`:
 * whitespace as `str.isspace` sees it, `strip`, `split()`, `split(sep)`,
 * `" ".join`, `re.sub(r'\s+', ' ', …)`, `lower`, `replace` of one character,
 * decimal rendering of integers and UTF-8 encoding.
 */
module Text {

  /** `str.isspace` for one character (ASCII and Unicode spaces). */
  predicate IsSpace(c: char)
  {
    c == ' ' || c == '\t' || c == '\n' || c == '\r' || c == '\U{B}' || c == '\U{C}'
    || ('\U{1C}' <= c <= '\U{1F}') || c == '\U{85}' || c == '\U{A0}' || c == '\U{1680}'
    || ('\U{2000}' <= c <= '\U{200A}') || c == '\U{2028}' || c == '\U{2029}'
    || c == '\U{202F}' || c == '\U{205F}' || c == '\U{3000}'
  }

  /** No two neighbouring characters are both whitespace. */
  ghost predicate NoSpaceRuns(s: string)
  {
    forall i, j :: 0 <= i && j == i + 1 && j < |s| ==> !(IsSpace(s[i]) && IsSpace(s[j]))
  }

  /** Neither end is whitespace. */
  predicate Trimmed(s: string)
  {
    |s| == 0 || (!IsSpace(s[0]) && !IsSpace(s[|s| - 1]))
  }

  /** What `" ".join(s.split())` produces: trimmed, single plain spaces only. */
  ghost predicate Clean(s: string)
  {
    Trimmed(s) && NoSpaceRuns(s) && forall i :: 0 <= i < |s| && IsSpace(s[i]) ==> s[i] == ' '
  }

  predicate AllSpace(s: string)
  {
    forall i :: 0 <= i < |s| ==> IsSpace(s[i])
  }

  /** `s.lstrip()`: drops exactly the leading whitespace. */
  function TrimLeft(s: string): (r: string)
    ensures |r| <= |s| && r == s[|s| - |r|..]
    ensures r == [] || !IsSpace(r[0])
    ensures AllSpace(s[..|s| - |r|])
    ensures r == [] <==> AllSpace(s)
  {
    if |s| > 0 && IsSpace(s[0]) then
      var r := TrimLeft(s[1..]);
      TrimLeftStep(s, r);
      r
    else s
  }

  lemma TrimLeftStep(s: string, r: string)
    requires |s| > 0 && IsSpace(s[0])
    requires |r| <= |s| - 1 && r == s[1..][|s| - 1 - |r|..] && AllSpace(s[1..][..|s| - 1 - |r|])
    requires r == [] <==> AllSpace(s[1..])
    ensures r == s[|s| - |r|..] && AllSpace(s[..|s| - |r|])
    ensures r == [] <==> AllSpace(s)
  {
    if AllSpace(s[1..]) {
      forall i | 0 <= i < |s| ensures IsSpace(s[i]) {
        if i > 0 {
          assert s[i] == s[1..][i - 1];
        }
      }
    }
    var k := |s| - |r|;
    assert s[1..][k - 1..] == s[k..];
    forall i | 0 <= i < k ensures IsSpace(s[..k][i]) {
      if i > 0 {
        assert s[..k][i] == s[1..][..k - 1][i - 1];
      }
    }
  }

  /** `s.rstrip()`: drops exactly the trailing whitespace. */
  function TrimRight(s: string): (r: string)
    ensures |r| <= |s| && r == s[..|r|]
    ensures r == [] || !IsSpace(r[|r| - 1])
    ensures AllSpace(s[|r|..])
    ensures r == [] <==> AllSpace(s)
  {
    if |s| > 0 && IsSpace(s[|s| - 1]) then
      var r := TrimRight(s[..|s| - 1]);
      TrimRightStep(s, r);
      r
    else s
  }

  lemma TrimRightStep(s: string, r: string)
    requires |s| > 0 && IsSpace(s[|s| - 1])
    requires |r| <= |s| - 1 && r == s[..|s| - 1][..|r|] && AllSpace(s[..|s| - 1][|r|..])
    requires r == [] <==> AllSpace(s[..|s| - 1])
    ensures r == s[..|r|] && AllSpace(s[|r|..])
    ensures r == [] <==> AllSpace(s)
  {
    if AllSpace(s[..|s| - 1]) {
      forall i | 0 <= i < |s| ensures IsSpace(s[i]) {
        if i < |s| - 1 {
          assert s[i] == s[..|s| - 1][i];
        }
      }
    }
    var k := |r|;
    assert s[..|s| - 1][..k] == s[..k];
    forall i | 0 <= i < |s| - k ensures IsSpace(s[k..][i]) {
      if k + i < |s| - 1 {
        assert s[k..][i] == s[..|s| - 1][k..][i];
      }
    }
  }

  /** `s.strip()`. */
  function Strip(s: string): (r: string)
    ensures Trimmed(r)
    ensures forall c :: c in r ==> c in s
    ensures NoSpaceRuns(s) ==> NoSpaceRuns(r)
    ensures r == [] <==> AllSpace(s)
    ensures Trimmed(s) ==> r == s
  {
    var t := TrimLeft(s);
    var r := TrimRight(t);
    TrimBoth(s);
    r
  }

  /** Trimming both ends leaves a slice of `s` that is empty exactly when `s` is all whitespace. */
  lemma TrimBoth(s: string)
    ensures var r := TrimRight(TrimLeft(s));
      Trimmed(r) && (r == [] <==> AllSpace(s)) && (Trimmed(s) ==> r == s)
      && (forall c :: c in r ==> c in s) && (NoSpaceRuns(s) ==> NoSpaceRuns(r))
  {
    var t := TrimLeft(s);
    var r := TrimRight(t);
    TrimSlice(s);
    TrimEnds(s);
    TrimEmpty(s);
  }

  lemma TrimSlice(s: string)
    ensures var r := TrimRight(TrimLeft(s));
      (forall c :: c in r ==> c in s) && (NoSpaceRuns(s) ==> NoSpaceRuns(r))
  {
    var t := TrimLeft(s);
    MiddleSlice(s, t, TrimRight(t));
  }

  /** A prefix of a suffix of `s` is a slice of `s`. */
  lemma MiddleSlice(s: string, t: string, r: string)
    requires |t| <= |s| && t == s[|s| - |t|..] && |r| <= |t| && r == t[..|r|]
    ensures (forall c :: c in r ==> c in s) && (NoSpaceRuns(s) ==> NoSpaceRuns(r))
  {
    var lo := |s| - |t|;
    assert r == s[lo..lo + |r|];
    SliceFacts(s, lo, lo + |r|, r);
  }

  lemma TrimEnds(s: string)
    ensures var r := TrimRight(TrimLeft(s)); Trimmed(r) && (Trimmed(s) ==> r == s)
  {
    var t := TrimLeft(s);
    var r := TrimRight(t);
    if r != [] {
      assert r[0] == t[0];
    }
  }

  lemma TrimEmpty(s: string)
    ensures TrimRight(TrimLeft(s)) == [] <==> AllSpace(s)
  {
  }

  /** A slice keeps the characters of `s` and its lack of whitespace runs. */
  lemma SliceFacts(s: string, lo: nat, hi: nat, r: string)
    requires lo <= hi <= |s| && r == s[lo..hi]
    ensures forall c :: c in r ==> c in s
    ensures NoSpaceRuns(s) ==> NoSpaceRuns(r)
  {
    forall c | c in r ensures c in s {
      var k :| 0 <= k < |r| && r[k] == c;
      assert s[lo + k] == c;
    }
    if NoSpaceRuns(s) {
      forall i, j | 0 <= i && j == i + 1 && j < |r| ensures !(IsSpace(r[i]) && IsSpace(r[j])) {
        assert r[i] == s[lo + i] && r[j] == s[lo + j];
      }
    }
  }

  /** Length of the run of non-whitespace characters at the front of `s`. */
  function WordLength(s: string): (k: nat)
    ensures k <= |s|
    ensures forall i :: 0 <= i < k ==> !IsSpace(s[i])
    ensures k == |s| || IsSpace(s[k])
  {
    if s == [] || IsSpace(s[0]) then 0 else 1 + WordLength(s[1..])
  }

  /** `s.split()` with no separator: the maximal runs of non-whitespace. */
  function Words(s: string): (ws: seq<string>)
    ensures forall w :: w in ws ==> w != [] && forall i :: 0 <= i < |w| ==> !IsSpace(w[i])
    decreases |s|
  {
    if s == [] then []
    else if IsSpace(s[0]) then Words(s[1..])
    else
      var k := WordLength(s);
      [s[..k]] + Words(s[k..])
  }

  /** `sep.join(parts)`. */
  function Join(sep: string, parts: seq<string>): string
  {
    if parts == [] then ""
    else if |parts| == 1 then parts[0]
    else parts[0] + sep + Join(sep, parts[1..])
  }

  /** `" ".join(s.split())`. */
  function CollapseSpaces(s: string): string
  {
    Join(" ", Words(s))
  }

  lemma {:induction false} JoinedWordsClean(ws: seq<string>)
    requires forall w :: w in ws ==> w != [] && forall i :: 0 <= i < |w| ==> !IsSpace(w[i])
    ensures Clean(Join(" ", ws))
    ensures ws != [] ==> Join(" ", ws) != [] && !IsSpace(Join(" ", ws)[0])
  {
    if |ws| > 1 {
      JoinedWordsClean(ws[1..]);
      var rest := Join(" ", ws[1..]);
      var r := ws[0] + " " + rest;
      assert Join(" ", ws) == r;
      assert ws[0] in ws;
      forall i | 0 <= i < |r| - 1
        ensures !(IsSpace(r[i]) && IsSpace(r[i + 1]))
      {
        if i >= |ws[0]| + 1 {
          assert r[i] == rest[i - |ws[0]| - 1] && r[i + 1] == rest[i - |ws[0]|];
        }
      }
      forall i | 0 <= i < |r| && IsSpace(r[i]) ensures r[i] == ' ' {
        if i > |ws[0]| { assert r[i] == rest[i - |ws[0]| - 1]; }
      }
      assert r[|r| - 1] == rest[|rest| - 1];
    } else if |ws| == 1 {
      assert ws[0] in ws;
    }
  }

  /** `" ".join(s.split())` always yields a clean string. */
  lemma CollapseSpacesClean(s: string)
    ensures Clean(CollapseSpaces(s))
  {
    JoinedWordsClean(Words(s));
  }

  lemma CleanSuffix(s: string, j: nat)
    requires Clean(s) && j < |s| && !IsSpace(s[j])
    ensures Clean(s[j..])
  {
    var tail := s[j..];
    forall i | 0 <= i < |tail| - 1 ensures !(IsSpace(tail[i]) && IsSpace(tail[i + 1])) {
      assert tail[i] == s[j + i] && tail[i + 1] == s[j + i + 1];
    }
    forall i | 0 <= i < |tail| && IsSpace(tail[i]) ensures tail[i] == ' ' {
      assert tail[i] == s[j + i];
    }
  }

  lemma JoinCons(sep: string, w: string, rest: seq<string>)
    requires rest != []
    ensures Join(sep, [w] + rest) == w + sep + Join(sep, rest)
  {
    assert ([w] + rest)[1..] == rest;
  }

  lemma CleanGap(s: string)
    requires Clean(s) && s != [] && WordLength(s) < |s|
    ensures s[WordLength(s)] == ' ' && WordLength(s) + 1 < |s| && !IsSpace(s[WordLength(s) + 1])
  {
  }

  /** A word followed by one space and more text splits into that word and the words of the rest. */
  lemma WordsAfterGap(s: string, k: nat)
    requires s != [] && !IsSpace(s[0]) && k == WordLength(s)
    requires k + 1 < |s| && IsSpace(s[k]) && !IsSpace(s[k + 1])
    ensures Words(s) == [s[..k]] + Words(s[k + 1..]) && Words(s[k + 1..]) != []
  {
    assert s[k..][1..] == s[k + 1..];
  }

  /** A clean string whose first word stops early is that word, one plain space and a clean rest. */
  lemma CleanSplit(s: string) returns (head: string, tail: string)
    requires Clean(s) && s != [] && WordLength(s) < |s|
    ensures s == head + " " + tail
    ensures Words(s) == [head] + Words(tail) && Words(tail) != []
    ensures Clean(tail) && |tail| < |s|
  {
    var k := WordLength(s);
    head, tail := s[..k], s[k + 1..];
    CleanGap(s);
    assert s == head + [s[k]] + tail;
    WordsAfterGap(s, k);
    CleanSuffix(s, k + 1);
  }

  lemma CleanSingleWord(s: string)
    requires s != [] && !IsSpace(s[0]) && WordLength(s) == |s|
    ensures Words(s) == [s]
  {
    assert s[..|s|] == s;
  }

  lemma {:induction false} CleanWords(s: string)
    requires Clean(s)
    ensures Join(" ", Words(s)) == s
    decreases |s|
  {
    if s != [] {
      if WordLength(s) < |s| {
        var head, tail := CleanSplit(s);
        CleanWords(tail);
        JoinCons(" ", head, Words(tail));
      } else {
        CleanSingleWord(s);
      }
    }
  }

  /** Collapsing is idempotent: a clean string is left unchanged. */
  lemma CollapseSpacesIdempotent(s: string)
    ensures CollapseSpaces(CollapseSpaces(s)) == CollapseSpaces(s)
  {
    CollapseSpacesClean(s);
    CleanWords(CollapseSpaces(s));
  }

  lemma {:induction false} WordsChars(s: string)
    ensures forall w, c :: w in Words(s) && c in w ==> c in s
    decreases |s|
  {
    if s != [] {
      if IsSpace(s[0]) {
        WordsChars(s[1..]);
      } else {
        var k := WordLength(s);
        WordsChars(s[k..]);
        assert forall c :: c in s[..k] || c in s[k..] ==> c in s;
      }
    }
  }

  lemma {:induction false} JoinChars(sep: string, parts: seq<string>)
    ensures forall c :: c in Join(sep, parts) ==> c in sep || exists p :: p in parts && c in p
    decreases |parts|
  {
    if |parts| > 1 {
      JoinChars(sep, parts[1..]);
      forall c | c in Join(sep, parts)
        ensures c in sep || exists p :: p in parts && c in p
      {
        if c in parts[0] {
        } else if c in sep {
        } else {
          assert c in Join(sep, parts[1..]);
          var p :| p in parts[1..] && c in p;
          assert p in parts;
        }
      }
    } else if |parts| == 1 {
      assert parts[0] in parts;
    }
  }

  /** Collapsing only ever introduces plain spaces. */
  lemma CollapseSpacesChars(s: string)
    ensures forall c :: c in CollapseSpaces(s) ==> c == ' ' || c in s
  {
    WordsChars(s);
    JoinChars(" ", Words(s));
  }

  /** `re.sub(r'\s+', ' ', s)`: every maximal whitespace run becomes one space. */
  function SquashSpaces(s: string): (r: string)
    ensures NoSpaceRuns(r)
    ensures forall i :: 0 <= i < |r| && IsSpace(r[i]) ==> r[i] == ' '
    ensures forall i :: 0 <= i < |r| && r[i] != ' ' ==> r[i] in s
    ensures r == [] <==> s == []
    ensures s != [] ==> (IsSpace(r[0]) <==> IsSpace(s[0]))
    decreases |s|
  {
    if s == [] then []
    else if IsSpace(s[0]) then " " + SquashSpaces(TrimLeft(s))
    else [s[0]] + SquashSpaces(s[1..])
  }

  /** The last character of the result is whitespace exactly when the input's is. */
  lemma {:induction false} SquashSpacesLast(s: string)
    requires s != []
    ensures var r := SquashSpaces(s); IsSpace(r[|r| - 1]) <==> IsSpace(s[|s| - 1])
    decreases |s|
  {
    var r := SquashSpaces(s);
    if IsSpace(s[0]) {
      var t := TrimLeft(s);
      var rt := SquashSpaces(t);
      assert r == " " + rt;
      if t != [] {
        SquashSpacesLast(t);
        assert t[|t| - 1] == s[|s| - 1];
        assert r[|r| - 1] == rt[|rt| - 1];
      } else {
        assert AllSpace(s);
        assert r == " ";
      }
    } else if |s| > 1 {
      var rt := SquashSpaces(s[1..]);
      assert r == [s[0]] + rt;
      SquashSpacesLast(s[1..]);
      assert r[|r| - 1] == rt[|rt| - 1];
    }
  }

  /** `re.sub(r'\s+', ' ', s)` of a stripped text is stripped. */
  lemma SquashSpacesTrimmed(s: string)
    requires Trimmed(s)
    ensures Trimmed(SquashSpaces(s))
  {
    if s != [] {
      SquashSpacesLast(s);
    }
  }

  /** A text whose whitespace is single plain spaces is left alone. */
  lemma {:induction false} SquashSpacesPlain(s: string)
    requires NoSpaceRuns(s) && forall i :: 0 <= i < |s| && IsSpace(s[i]) ==> s[i] == ' '
    ensures SquashSpaces(s) == s
    decreases |s|
  {
    if s != [] {
      NoSpaceRunsSlice(s, 1, |s|);
      if IsSpace(s[0]) {
        var t := TrimLeft(s);
        var k := |s| - |t|;
        assert |s| > 1 ==> !IsSpace(s[1]);
        assert k == 1;
        assert t == s[1..];
      }
      SquashSpacesPlain(s[1..]);
    }
  }

  /** Index of the first `sep` in `s`, or `|s|` when there is none. */
  function IndexOf(s: string, sep: char): (k: nat)
    ensures k <= |s|
    ensures forall i :: 0 <= i < k ==> s[i] != sep
    ensures k < |s| ==> s[k] == sep
  {
    if s == [] then 0 else if s[0] == sep then 0 else 1 + IndexOf(s[1..], sep)
  }

  /** The first occurrence of `sep` is where `IndexOf` stops. */
  lemma {:induction false} IndexOfFirst(s: string, sep: char, k: nat)
    requires k < |s| && s[k] == sep && forall i :: 0 <= i < k ==> s[i] != sep
    ensures IndexOf(s, sep) == k
  {
    if k > 0 {
      IndexOfFirst(s[1..], sep, k - 1);
    }
  }

  /** `s.split(sep)` for a one-character separator, empty pieces included. */
  function SplitOn(s: string, sep: char): (parts: seq<string>)
    ensures |parts| >= 1
    ensures forall p :: p in parts ==> sep !in p
    ensures Join([sep], parts) == s
    decreases |s|
  {
    var k := IndexOf(s, sep);
    if k == |s| then [s]
    else
      var rest := SplitOn(s[k + 1..], sep);
      assert s == s[..k] + [sep] + s[k + 1..];
      [s[..k]] + rest
  }

  lemma IndexOfJoined(a: string, sep: char, b: string)
    requires sep !in a
    ensures IndexOf(a + [sep] + b, sep) == |a|
    decreases |a|
  {
    if a != [] {
      assert (a + [sep] + b)[1..] == a[1..] + [sep] + b;
      IndexOfJoined(a[1..], sep, b);
    }
  }

  lemma IndexOfAbsent(a: string, sep: char)
    requires sep !in a
    ensures IndexOf(a, sep) == |a|
    decreases |a|
  {
    if a != [] {
      IndexOfAbsent(a[1..], sep);
    }
  }

  /** A piece without the separator followed by the separator splits off as the first part. */
  lemma SplitOnCons(head: string, sep: char, tail: string)
    requires sep !in head
    ensures SplitOn(head + [sep] + tail, sep) == [head] + SplitOn(tail, sep)
  {
    var s := head + [sep] + tail;
    IndexOfJoined(head, sep, tail);
    assert s[|head| + 1..] == tail;
    assert s[..|head|] == head;
  }

  /** Splitting a join on a separator no part contains gives the parts back. */
  lemma {:induction false} SplitOnJoin(parts: seq<string>, sep: char)
    requires parts != []
    requires forall p :: p in parts ==> sep !in p
    ensures SplitOn(Join([sep], parts), sep) == parts
    decreases |parts|
  {
    if |parts| == 1 {
      IndexOfAbsent(parts[0], sep);
    } else {
      var rest := parts[1..];
      assert forall p :: p in rest ==> p in parts;
      SplitOnJoin(rest, sep);
      var head, tail := parts[0], Join([sep], rest);
      assert Join([sep], parts) == head + [sep] + tail;
      assert sep !in head by { assert head in parts; }
      SplitOnCons(head, sep, tail);
      assert parts == [head] + rest;
    }
  }

  /** Every piece of a split is a piece of its input. */
  lemma {:induction false} SplitOnPieces(s: string, sep: char)
    ensures forall p :: p in SplitOn(s, sep) ==> (NoSpaceRuns(s) ==> NoSpaceRuns(p)) && forall c :: c in p ==> c in s
    decreases |s|
  {
    var k := IndexOf(s, sep);
    if k < |s| {
      var tail := s[k + 1..];
      SplitOnPieces(tail, sep);
      assert SplitOn(s, sep) == [s[..k]] + SplitOn(tail, sep);
      NoSpaceRunsSlice(s, k + 1, |s|);
      NoSpaceRunsSlice(s, 0, k);
      forall p | p in SplitOn(s, sep)
        ensures (NoSpaceRuns(s) ==> NoSpaceRuns(p)) && forall c :: c in p ==> c in s
      {
        if p != s[..k] {
          assert p in SplitOn(tail, sep);
          assert forall c :: c in tail ==> c in s;
        }
      }
    }
  }

  /** A slice of a string without runs of spaces has none either. */
  lemma NoSpaceRunsSlice(s: string, lo: nat, hi: nat)
    requires lo <= hi <= |s|
    ensures NoSpaceRuns(s) ==> NoSpaceRuns(s[lo..hi])
  {
    if NoSpaceRuns(s) {
      var t := s[lo..hi];
      forall i | 0 <= i < |t| - 1 ensures !(IsSpace(t[i]) && IsSpace(t[i + 1])) {
        assert t[i] == s[lo + i] && t[i + 1] == s[lo + i + 1];
      }
    }
  }

  /** `s.replace(old, new)` for single characters. */
  function ReplaceChar(s: string, from: char, to: char): (r: string)
    ensures |r| == |s|
    ensures forall i :: 0 <= i < |s| ==> r[i] == (if s[i] == from then to else s[i])
  {
    if s == [] then [] else [if s[0] == from then to else s[0]] + ReplaceChar(s[1..], from, to)
  }

  /** Upper-case letters `str.lower` maps: Latin A-Z and the basic Cyrillic capitals. */
  predicate IsUpper(c: char)
  {
    ('A' <= c <= 'Z') || ('\U{400}' <= c <= '\U{42F}')
  }

  /** `str.lower` on one character, for Latin and Cyrillic letters. */
  function LowerChar(c: char): (r: char)
    ensures !IsUpper(r)
    ensures !IsUpper(c) ==> r == c
  {
    if 'A' <= c <= 'Z' then (c as int + 32) as char
    else if '\U{400}' <= c <= '\U{40F}' then (c as int + 0x50) as char
    else if '\U{410}' <= c <= '\U{42F}' then (c as int + 0x20) as char
    else c
  }

  /** `s.lower()`. */
  function Lower(s: string): (r: string)
    ensures |r| == |s|
    ensures forall i :: 0 <= i < |s| ==> r[i] == LowerChar(s[i])
  {
    if s == [] then [] else [LowerChar(s[0])] + Lower(s[1..])
  }

  /** `str(n)` for a natural number. */
  function NatToString(n: nat): (r: string)
    ensures |r| >= 1
    ensures forall i :: 0 <= i < |r| ==> '0' <= r[i] <= '9'
    ensures ParseDigits(r) == n
  {
    if n < 10 then [DigitChar(n)]
    else
      var r := NatToString(n / 10) + [DigitChar(n % 10)];
      ParseDigitsSnoc(NatToString(n / 10), DigitChar(n % 10));
      r
  }

  function DigitChar(d: nat): (c: char)
    requires d < 10
    ensures '0' <= c <= '9' && c as int - '0' as int == d
  {
    ('0' as int + d) as char
  }

  predicate IsDigits(s: string)
  {
    forall i :: 0 <= i < |s| ==> '0' <= s[i] <= '9'
  }

  /** The value of a string of decimal digits. */
  function ParseDigits(s: string): nat
  {
    if s == [] then 0
    else
      var d := s[|s| - 1] as int - '0' as int;
      ParseDigits(s[..|s| - 1]) * 10 + (if 0 <= d < 10 then d else 0)
  }

  lemma ParseDigitsSnoc(s: string, c: char)
    requires '0' <= c <= '9'
    ensures ParseDigits(s + [c]) == ParseDigits(s) * 10 + (c as int - '0' as int)
  {
    assert (s + [c])[..|s|] == s;
  }

  /** `str(i)` for any integer. */
  function IntToString(i: int): (r: string)
    ensures |r| >= 1
    ensures i >= 0 ==> IsDigits(r) && ParseDigits(r) == i
    ensures i < 0 ==> r[0] == '-' && IsDigits(r[1..]) && ParseDigits(r[1..]) == -i
  {
    if i >= 0 then NatToString(i) else "-" + NatToString(-i)
  }

  newtype byte = x: int | 0 <= x < 256

  /** The UTF-8 encoding of one code point. */
  function Utf8Char(c: char): (bs: seq<byte>)
    ensures 1 <= |bs| <= 4
    ensures (c as int < 0x80) <==> |bs| == 1
    ensures c as int < 0x80 ==> bs == [c as int as byte]
    ensures |bs| > 1 ==> forall i :: 0 <= i < |bs| ==> bs[i] >= 0x80
  {
    var cp := c as int;
    if cp < 0x80 then [cp as byte]
    else if cp < 0x800 then [(0xC0 + cp / 64) as byte, (0x80 + cp % 64) as byte]
    else if cp < 0x10000 then [(0xE0 + cp / 4096) as byte, (0x80 + (cp / 64) % 64) as byte, (0x80 + cp % 64) as byte]
    else [(0xF0 + cp / 262144) as byte, (0x80 + (cp / 4096) % 64) as byte, (0x80 + (cp / 64) % 64) as byte, (0x80 + cp % 64) as byte]
  }

  /** `s.encode("utf-8")`. */
  function Utf8(s: string): (bs: seq<byte>)
    ensures |s| <= |bs| <= 4 * |s|
    ensures (forall i :: 0 <= i < |s| ==> s[i] as int < 0x80) ==> |bs| == |s|
  {
    if s == [] then [] else Utf8Char(s[0]) + Utf8(s[1..])
  }
}

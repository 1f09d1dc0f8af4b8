/**
 * The Python string methods the push adapters and the sync rely on:
 * `str.strip()`, `str.rpartition(sep)`, `str.replace(old, new)` and
 * `str.split(sep)`, each with a contract that pins its result down.
 */
module Text {

  /** Python's `str.isspace()` for one character: the Unicode white-space
      characters (bidirectional class WS, B or S, or category Zs). */
  predicate IsSpace(c: char)
  {
    var n := c as int;
    || (0x09 <= n <= 0x0D) || (0x1C <= n <= 0x20) || n == 0x85 || n == 0xA0
    || n == 0x1680 || (0x2000 <= n <= 0x200A) || n == 0x2028 || n == 0x2029
    || n == 0x202F || n == 0x205F || n == 0x3000
  }

  /** Every character of `s` is white space. */
  predicate AllSpace(s: string)
  {
    forall k :: 0 <= k < |s| ==> IsSpace(s[k])
  }

  /** `s.lstrip()`: the longest suffix of `s` that does not start with white space. */
  function StripLeft(s: string): (r: string)
    ensures |r| <= |s| && r == s[|s| - |r|..]
    ensures AllSpace(s[..|s| - |r|])
    ensures r == [] || !IsSpace(r[0])
    decreases |s|
  {
    if |s| > 0 && IsSpace(s[0]) then StripLeft(s[1..]) else s
  }

  /** `s.rstrip()`: the longest prefix of `s` that does not end with white space. */
  function StripRight(s: string): (r: string)
    ensures |r| <= |s| && r == s[..|r|]
    ensures AllSpace(s[|r|..])
    ensures r == [] || !IsSpace(r[|r| - 1])
    decreases |s|
  {
    if |s| > 0 && IsSpace(s[|s| - 1]) then StripRight(s[..|s| - 1]) else s
  }

  /** `r` is what is left of `s` once the white space in front of position `i`
      and behind `r` is cut away, and `r` itself neither starts nor ends with
      white space: the meaning of `s.strip()`. */
  predicate StrippedAt(s: string, i: int, r: string)
  {
    && 0 <= i && i + |r| <= |s|
    && r == s[i..i + |r|]
    && AllSpace(s[..i])
    && AllSpace(s[i + |r|..])
    && (r == [] || (!IsSpace(r[0]) && !IsSpace(r[|r| - 1])))
  }

  /** Cutting white space off the front of `s` at `i`, then off the back of
      what is left, meets `StrippedAt`. */
  lemma StripParts(s: string, l: string, r: string)
    requires |l| <= |s| && l == s[|s| - |l|..] && AllSpace(s[..|s| - |l|])
    requires l == [] || !IsSpace(l[0])
    requires |r| <= |l| && r == l[..|r|] && AllSpace(l[|r|..])
    requires r == [] || !IsSpace(r[|r| - 1])
    ensures StrippedAt(s, |s| - |l|, r)
  {
    var i := |s| - |l|;
    assert s[i..][..|r|] == s[i..i + |r|];
    assert s[i + |r|..] == l[|r|..];
    if r != [] {
      assert r[0] == l[0];
    }
  }

  /** Python's `s.strip()` with no argument. */
  function Strip(s: string): (r: string)
    ensures StrippedAt(s, |s| - |StripLeft(s)|, r)
  {
    var l := StripLeft(s);
    var r := StripRight(l);
    StripParts(s, l, r);
    r
  }

  /** A string that strips to nothing is all white space. */
  lemma StrippedEmpty(s: string, i: int)
    requires StrippedAt(s, i, [])
    ensures AllSpace(s)
  {
    assert s == s[..i] + s[i..];
  }

  /** Reading position `k` through a prefix or a suffix of `s`. */
  lemma PrefixAt(s: string, j: int, k: int)
    ensures 0 <= k < j <= |s| ==> s[..j][k] == s[k]
  {
  }

  lemma SuffixAt(s: string, j: int, k: int)
    ensures 0 <= j <= k < |s| ==> s[j..][k - j] == s[k]
  {
  }

  /** The ends of a stripped result are characters of `s`. */
  lemma StrippedEnds(s: string, i: int, r: string)
    requires StrippedAt(s, i, r)
    ensures r != [] ==> s[i] == r[0] && s[i + |r| - 1] == r[|r| - 1]
  {
  }

  /** Two ways of stripping the same string agree. */
  lemma StrippedAtUnique(s: string, i: int, r: string, j: int, t: string)
    requires StrippedAt(s, i, r) && StrippedAt(s, j, t)
    ensures r == t
  {
    StrippedEnds(s, i, r);
    StrippedEnds(s, j, t);
    if r == [] {
      StrippedEmpty(s, i);
    }
    if t == [] {
      StrippedEmpty(s, j);
    }
    PrefixAt(s, j, i);
    PrefixAt(s, i, j);
    SuffixAt(s, i + |r|, j + |t| - 1);
    SuffixAt(s, j + |t|, i + |r| - 1);
  }

  /** There is only one way to strip a string: any `r` that meets `StrippedAt`
      is `Strip(s)`. */
  lemma StripUnique(s: string, i: int, r: string)
    requires StrippedAt(s, i, r)
    ensures r == Strip(s)
  {
    StrippedAtUnique(s, i, r, |s| - |StripLeft(s)|, Strip(s));
  }

  /** Stripping twice strips nothing more. */
  lemma StripIdempotent(s: string)
    ensures Strip(Strip(s)) == Strip(s)
  {
    var t := Strip(s);
    assert StrippedAt(t, 0, t) by {
      assert t[0..0 + |t|] == t;
      assert t[..0] == [];
      assert t[|t|..] == [];
    }
    StripUnique(t, 0, t);
  }

  /** Python's `s.rpartition(sep)`: the text before the last `sep`, the
      separator itself, and the text after it; `("", "", s)` when `sep` does
      not occur. */
  function RPartition(s: string, sep: char): (r: (string, string, string))
    ensures r.0 + r.1 + r.2 == s
    ensures sep !in r.2
    ensures r.1 == [sep] || (r.0 == [] && r.1 == [] && sep !in s)
    decreases |s|
  {
    if |s| == 0 then ("", "", "")
    else if s[|s| - 1] == sep then (s[..|s| - 1], [sep], "")
    else
      var p := RPartition(s[..|s| - 1], sep);
      if p.1 == [] then ("", "", s)
      else (p.0, p.1, p.2 + [s[|s| - 1]])
  }

  /** The third part of `s.rpartition(sep)`: what follows the last `sep`, or
      all of `s` when there is none. It is the longest suffix of `s` without
      `sep`. */
  function AfterLast(s: string, sep: char): (r: string)
    ensures sep !in r
    ensures |r| <= |s| && r == s[|s| - |r|..]
    ensures |r| < |s| ==> s[|s| - |r| - 1] == sep
  {
    var p := RPartition(s, sep);
    assert s == p.0 + p.1 + p.2;
    assert s[|s| - |p.2|..] == p.2;
    p.2
  }

  /** `AfterLast` is the suffix after the separator at the highest position,
      and the whole string when the separator is absent. */
  lemma AfterLastCharacterization(s: string, sep: char)
    ensures sep !in s ==> AfterLast(s, sep) == s
    ensures forall i :: 0 <= i < |s| && s[i] == sep && sep !in s[i + 1..] ==> AfterLast(s, sep) == s[i + 1..]
  {
    var p := RPartition(s, sep);
    assert s == p.0 + p.1 + p.2;
    forall i | 0 <= i < |s| && s[i] == sep && sep !in s[i + 1..]
      ensures AfterLast(s, sep) == s[i + 1..]
    {
      if p.1 == [] {
        assert false;
      }
      var j := |p.0|;
      assert s[j] == sep && s[j + 1..] == p.2;
    }
  }

  /** `pat` occurs in `s` starting at position `j`. */
  predicate OccursAt(s: string, pat: string, j: int)
  {
    0 <= j && j + |pat| <= |s| && s[j..j + |pat|] == pat
  }

  /** Python's `s.replace(pat, rep)`: scanning left to right, every
      non-overlapping occurrence of `pat` is replaced by `rep`. */
  function Replace(s: string, pat: string, rep: string): (r: string)
    requires |pat| > 0
    ensures rep == [] ==> |r| <= |s|
    decreases |s|
  {
    if |s| < |pat| then s
    else if s[..|pat|] == pat then rep + Replace(s[|pat|..], pat, rep)
    else [s[0]] + Replace(s[1..], pat, rep)
  }

  /** Text in which `pat` does not occur is left unchanged. */
  lemma {:induction false} ReplaceWithoutOccurrence(s: string, pat: string, rep: string)
    requires |pat| > 0
    requires forall j :: !OccursAt(s, pat, j)
    ensures Replace(s, pat, rep) == s
    decreases |s|
  {
    if |s| >= |pat| {
      assert !OccursAt(s, pat, 0);
      assert s[..|pat|] != pat;
      forall j ensures !OccursAt(s[1..], pat, j) {
        if OccursAt(s[1..], pat, j) {
          OccursAtTail(s, pat, j);
        }
      }
      ReplaceWithoutOccurrence(s[1..], pat, rep);
      assert [s[0]] + s[1..] == s;
    }
  }

  /** No proper suffix of `pat` is also a prefix of it, so two occurrences of
      `pat` can never overlap (true of `.git`). */
  predicate Borderless(pat: string)
  {
    forall k :: 0 < k < |pat| ==> pat[k..] != pat[..|pat| - k]
  }

  /** Position `i` of `s` lies inside some occurrence of `pat`. */
  ghost predicate Covered(s: string, pat: string, i: int)
  {
    exists j :: 0 <= j <= i < j + |pat| && OccursAt(s, pat, j)
  }

  /** The characters of `s` from position `i` on that lie inside no occurrence
      of `pat`, in order: an independent reading of "delete every `pat`". */
  ghost function KeptFrom(s: string, pat: string, i: nat): string
    decreases |s| - i
  {
    if i >= |s| then []
    else (if Covered(s, pat, i) then [] else [s[i]]) + KeptFrom(s, pat, i + 1)
  }

  /** No occurrence of `pat` starts before `d` and ends after it. */
  ghost predicate NoStraddle(s: string, pat: string, d: int)
  {
    forall j :: 0 <= j < d < j + |pat| ==> !OccursAt(s, pat, j)
  }

  lemma CoveredShift(s: string, pat: string, d: nat, i: int)
    requires d <= i < |s| && NoStraddle(s, pat, d)
    ensures Covered(s, pat, i) <==> Covered(s[d..], pat, i - d)
  {
    if Covered(s, pat, i) {
      var j :| 0 <= j <= i < j + |pat| && OccursAt(s, pat, j);
      assert s[d..][j - d..j - d + |pat|] == s[j..j + |pat|];
      assert OccursAt(s[d..], pat, j - d);
    }
    if Covered(s[d..], pat, i - d) {
      var j :| 0 <= j <= i - d < j + |pat| && OccursAt(s[d..], pat, j);
      assert s[d..][j..j + |pat|] == s[j + d..j + d + |pat|];
      assert OccursAt(s, pat, j + d);
    }
  }

  lemma {:induction false} KeptShift(s: string, pat: string, d: nat, i: nat)
    requires d <= i <= |s| && NoStraddle(s, pat, d)
    ensures KeptFrom(s, pat, i) == KeptFrom(s[d..], pat, i - d)
    decreases |s| - i
  {
    if i < |s| {
      var s' := s[d..];
      CoveredShift(s, pat, d, i);
      KeptShift(s, pat, d, i + 1);
      assert s'[i - d] == s[i];
      assert KeptFrom(s, pat, i)
        == (if Covered(s, pat, i) then [] else [s[i]]) + KeptFrom(s, pat, i + 1);
      assert KeptFrom(s', pat, i - d)
        == (if Covered(s', pat, i - d) then [] else [s'[i - d]]) + KeptFrom(s', pat, i - d + 1);
    }
  }

  lemma {:induction false} KeptSkipsCovered(s: string, pat: string, i: nat, n: nat)
    requires i <= n <= |s|
    requires forall k :: i <= k < n ==> Covered(s, pat, k)
    ensures KeptFrom(s, pat, i) == KeptFrom(s, pat, n)
    decreases n - i
  {
    if i < n {
      KeptSkipsCovered(s, pat, i + 1, n);
    }
  }

  lemma {:induction false} KeptAllWhenShort(s: string, pat: string, i: nat)
    requires i <= |s| < |pat|
    ensures KeptFrom(s, pat, i) == s[i..]
    decreases |s| - i
  {
    if i < |s| {
      assert !Covered(s, pat, i);
      KeptAllWhenShort(s, pat, i + 1);
    }
  }

  /** Two overlapping occurrences of `pat`, at 0 and at `j`, make
      `pat[j..]` a border of `pat`. */
  lemma OverlapIsBorder(s: string, pat: string, j: int)
    requires OccursAt(s, pat, 0) && 0 < j < |pat| && OccursAt(s, pat, j)
    ensures pat[j..] == pat[..|pat| - j]
  {
    forall t | 0 <= t < |pat| - j ensures pat[j..][t] == pat[..|pat| - j][t] {
      assert s[..|pat|][j + t] == s[j + t] == s[j..j + |pat|][t];
    }
  }

  /** An occurrence of a borderless `pat` at the start of `s` overlaps no other one. */
  lemma PrefixOccurrenceNoStraddle(s: string, pat: string)
    requires Borderless(pat) && OccursAt(s, pat, 0)
    ensures NoStraddle(s, pat, |pat|)
  {
    forall j | 0 < j < |pat| && OccursAt(s, pat, j) ensures pat[j..] == pat[..|pat| - j] {
      OverlapIsBorder(s, pat, j);
    }
  }

  /** An occurrence at the front is deleted whole, and what follows it is
      read independently of it. */
  lemma KeptAfterPrefixOccurrence(s: string, pat: string)
    requires |pat| > 0 && Borderless(pat) && |s| >= |pat| && s[..|pat|] == pat
    ensures KeptFrom(s, pat, 0) == KeptFrom(s[|pat|..], pat, 0)
  {
    assert OccursAt(s, pat, 0);
    forall k | 0 <= k < |pat| ensures Covered(s, pat, k) {
      assert 0 <= 0 <= k < 0 + |pat|;
    }
    KeptSkipsCovered(s, pat, 0, |pat|);
    PrefixOccurrenceNoStraddle(s, pat);
    KeptShift(s, pat, |pat|, |pat|);
  }

  /** A first character that starts no occurrence, and lies in none, is
      kept. */
  lemma KeptFirst(s: string, pat: string)
    requires |pat| > 0 && |s| >= |pat| && s[..|pat|] != pat
    ensures KeptFrom(s, pat, 0) == [s[0]] + KeptFrom(s[1..], pat, 0)
  {
    assert !Covered(s, pat, 0);
    KeptShift(s, pat, 1, 1);
  }

  /** `s.replace(pat, '')` for a borderless `pat` deletes exactly the
      characters inside occurrences of `pat` and keeps every other one, in
      order: every occurrence goes, not only a trailing one. */
  lemma {:induction false} ReplaceDeletesEveryOccurrence(s: string, pat: string)
    requires |pat| > 0 && Borderless(pat)
    ensures Replace(s, pat, "") == KeptFrom(s, pat, 0)
    decreases |s|
  {
    if |s| < |pat| {
      KeptAllWhenShort(s, pat, 0);
    } else if s[..|pat|] == pat {
      KeptAfterPrefixOccurrence(s, pat);
      ReplaceDeletesEveryOccurrence(s[|pat|..], pat);
    } else {
      KeptFirst(s, pat);
      ReplaceDeletesEveryOccurrence(s[1..], pat);
    }
  }

  /** Replacing brings in no character that neither the text nor the
      replacement holds. */
  lemma {:induction false} ReplaceAbsent(s: string, pat: string, rep: string, c: char)
    requires |pat| > 0 && c !in s && c !in rep
    ensures c !in Replace(s, pat, rep)
    decreases |s|
  {
    if |s| >= |pat| {
      if s[..|pat|] == pat {
        assert c !in s[|pat|..];
        ReplaceAbsent(s[|pat|..], pat, rep, c);
      } else {
        assert c !in s[1..];
        ReplaceAbsent(s[1..], pat, rep, c);
      }
    }
  }

  /** An occurrence in `s[1..]` is an occurrence in `s`, one place later. */
  lemma OccursAtTail(s: string, pat: string, j: int)
    requires |s| >= 1 && OccursAt(s[1..], pat, j)
    ensures OccursAt(s, pat, j + 1)
  {
    assert s[1..][j..j + |pat|] == s[j + 1..j + 1 + |pat|];
  }

  /** No occurrence in `s` before `n` means none in `s[1..]` before `n - 1`. */
  lemma NoOccurrenceTail(s: string, pat: string, n: int)
    requires |s| >= 1
    requires forall j :: 0 <= j < n ==> !OccursAt(s, pat, j)
    ensures forall j :: 0 <= j < n - 1 ==> !OccursAt(s[1..], pat, j)
  {
    forall j | 0 <= j < n - 1 ensures !OccursAt(s[1..], pat, j) {
      if OccursAt(s[1..], pat, j) {
        OccursAtTail(s, pat, j);
      }
    }
  }

  /** Where `pat` does not start, replacing keeps the first character. */
  lemma ReplaceKeepsFirst(s: string, pat: string, rep: string)
    requires |pat| > 0 && |s| >= 1 && !OccursAt(s, pat, 0)
    ensures Replace(s, pat, rep) == [s[0]] + Replace(s[1..], pat, rep)
  {
    if |s| >= |pat| {
      assert s[..|pat|] != pat;
    }
  }

  /** Where `pat` starts, replacing puts `rep` for it and goes on after it. */
  lemma ReplaceAtStart(pat: string, b: string, rep: string)
    requires |pat| > 0
    ensures Replace(pat + b, pat, rep) == rep + Replace(b, pat, rep)
  {
    var t := pat + b;
    assert t[..|pat|] == pat && t[|pat|..] == b;
  }

  /** Putting back the first character of a non-empty `a`. */
  lemma ConsAppend(a: string, tail: string)
    requires |a| >= 1
    ensures [a[0]] + (a[1..] + tail) == a + tail
  {
    assert [a[0]] + a[1..] == a;
  }

  /** When the first occurrence of `pat` in `t = a + pat + b` is the one
      after `a`, replacing keeps `a`, puts `rep` for that occurrence and
      goes on with `b`. */
  lemma {:induction false} ReplaceAtFirst(t: string, a: string, pat: string, b: string, rep: string)
    requires |pat| > 0 && t == a + pat + b
    requires forall j :: 0 <= j < |a| ==> !OccursAt(t, pat, j)
    ensures Replace(t, pat, rep) == a + rep + Replace(b, pat, rep)
    decreases |a|
  {
    if |a| == 0 {
      assert t == pat + b;
      ReplaceAtStart(pat, b, rep);
    } else {
      var t' := t[1..];
      assert t' == a[1..] + pat + b;
      NoOccurrenceTail(t, pat, |a|);
      ReplaceAtFirst(t', a[1..], pat, b, rep);
      ReplaceAtFirstStep(t, a, pat, b, rep);
    }
  }

  /** One step of `ReplaceAtFirst`: a first character of `a` that starts no
      occurrence is kept in front of the rest. */
  lemma ReplaceAtFirstStep(t: string, a: string, pat: string, b: string, rep: string)
    requires |pat| > 0 && |a| >= 1 && t == a + pat + b && !OccursAt(t, pat, 0)
    requires Replace(t[1..], pat, rep) == a[1..] + rep + Replace(b, pat, rep)
    ensures Replace(t, pat, rep) == a + rep + Replace(b, pat, rep)
  {
    ReplaceKeepsFirst(t, pat, rep);
    assert t[0] == a[0];
    ConsAppend(a, rep + Replace(b, pat, rep));
  }

  /** An occurrence of `pat` in `s + pat` that starts inside `s` and runs
      past its end overlaps the final copy of `pat`: the overlap is a border
      of `pat`. */
  lemma StraddleIsBorder(s: string, pat: string, j: int)
    requires 0 <= j < |s| < j + |pat| && OccursAt(s + pat, pat, j)
    ensures pat[|s| - j..] == pat[..|pat| - (|s| - j)]
  {
    var t := s + pat;
    assert OccursAt(t[j..], pat, 0) by {
      assert t[j..][0..|pat|] == t[j..j + |pat|];
    }
    assert OccursAt(t[j..], pat, |s| - j) by {
      assert t[j..][|s| - j..|s| - j + |pat|] == t[|s|..|s| + |pat|] == pat;
    }
    OverlapIsBorder(t[j..], pat, |s| - j);
  }

  /** An occurrence of a borderless `pat` in `s + pat` that starts inside
      `s` lies wholly inside `s`. */
  lemma NoStraddleIntoAppended(s: string, pat: string)
    requires Borderless(pat)
    requires forall j :: !OccursAt(s, pat, j)
    ensures forall j :: 0 <= j < |s| ==> !OccursAt(s + pat, pat, j)
  {
    var t := s + pat;
    forall j | 0 <= j < |s| && j + |pat| > |s| && OccursAt(t, pat, j)
      ensures pat[|s| - j..] == pat[..|pat| - (|s| - j)]
    {
      StraddleIsBorder(s, pat, j);
    }
    forall j | 0 <= j < |s| && j + |pat| <= |s| ensures !OccursAt(t, pat, j) {
      assert !OccursAt(s, pat, j);
      assert t[j..j + |pat|] == s[j..j + |pat|];
    }
  }

  /** Python's `s.split(sep)`: the pieces between the separators, in order,
      with `""` for empty pieces. */
  function Split(s: string, sep: char): (r: seq<string>)
    ensures |r| >= 1
    ensures forall k :: 0 <= k < |r| ==> sep !in r[k]
    decreases |s|
  {
    if |s| == 0 then [""]
    else
      var rest := Split(s[1..], sep);
      if s[0] == sep then [""] + rest
      else [[s[0]] + rest[0]] + rest[1..]
  }

  /** `sep.join(parts)`. */
  function Join(parts: seq<string>, sep: char): string
    requires |parts| >= 1
    decreases |parts|
  {
    if |parts| == 1 then parts[0] else parts[0] + [sep] + Join(parts[1..], sep)
  }

  /** Joining the pieces of a split gives the string back, so two different
      strings never split into the same pieces. */
  lemma {:induction false} JoinSplit(s: string, sep: char)
    ensures Join(Split(s, sep), sep) == s
    decreases |s|
  {
    if |s| > 0 {
      JoinSplit(s[1..], sep);
      var rest := Split(s[1..], sep);
      if s[0] != sep {
        if |rest| > 1 {
          assert rest[1..][1..] == rest[2..];
        }
      }
    }
  }

  /** A string without the separator is a single piece. */
  lemma {:induction false} SplitWithoutSep(s: string, sep: char)
    requires sep !in s
    ensures Split(s, sep) == [s]
    decreases |s|
  {
    if |s| > 0 {
      SplitWithoutSep(s[1..], sep);
      assert s[0] != sep;
      assert [s[0]] + s[1..] == s;
    }
  }

  /** Splitting `a + sep + b`, where `a` holds no separator, gives `a`
      followed by the pieces of `b`. */
  lemma {:induction false} SplitAtFirst(a: string, b: string, sep: char)
    requires sep !in a
    ensures Split(a + [sep] + b, sep) == [a] + Split(b, sep)
    decreases |a|
  {
    if |a| == 0 {
      assert a + [sep] + b == [sep] + b;
      assert ([sep] + b)[1..] == b;
    } else {
      SplitAtFirst(a[1..], b, sep);
      assert (a + [sep] + b)[1..] == a[1..] + [sep] + b;
      assert [a[0]] + a[1..] == a;
    }
  }

  /** Splitting undoes joining when no piece holds the separator. */
  lemma {:induction false} SplitJoin(parts: seq<string>, sep: char)
    requires |parts| >= 1
    requires forall k :: 0 <= k < |parts| ==> sep !in parts[k]
    ensures Split(Join(parts, sep), sep) == parts
    decreases |parts|
  {
    if |parts| == 1 {
      SplitWithoutSep(parts[0], sep);
    } else {
      SplitJoin(parts[1..], sep);
      SplitAtFirst(parts[0], Join(parts[1..], sep), sep);
      assert [parts[0]] + parts[1..] == parts;
    }
  }

  /** A last piece without the separator is split off as one piece. */
  lemma {:induction false} SplitAppendLast(a: string, b: string, sep: char)
    requires sep !in b
    ensures Split(a + [sep] + b, sep) == Split(a, sep) + [b]
    decreases |a|
  {
    if |a| == 0 {
      assert a + [sep] + b == [sep] + b;
      assert ([sep] + b)[1..] == b;
      SplitWithoutSep(b, sep);
    } else {
      SplitAppendLast(a[1..], b, sep);
      assert (a + [sep] + b)[1..] == a[1..] + [sep] + b;
      assert (a + [sep] + b)[0] == a[0];
    }
  }
}

/**
 * The Python string operations the converter relies on, over `string`
 * (`seq<char>`): `sub in s`, `s.split(sep)`, `sep.join(parts)` and
 * `s.replace(pat, rep)`, together with `Find`, the leftmost search behind
 * `in` and `split`.
 */
module Strings {
  import opened Wrappers

  /** The `", "` the converter splits names and categories on and joins them with. */
  const CommaSep: string := ", "

  /** `sub` occurs in `s` starting at index `i`. */
  predicate OccursAt(s: string, sub: string, i: int) {
    0 <= i && i + |sub| <= |s| && s[i..i + |sub|] == sub
  }

  /** Occurrences in `s[1..]` are the occurrences in `s` one index further on. */
  lemma OccursShift(s: string, sub: string, i: int)
    requires |s| > 0 && 0 <= i
    ensures OccursAt(s[1..], sub, i) <==> OccursAt(s, sub, i + 1)
  {
    if i + 1 + |sub| <= |s| {
      assert s[1..][i..i + |sub|] == s[i + 1..i + 1 + |sub|];
    }
  }

  /** The leftmost occurrence of `sub` in `s` at or after index `start`. */
  function FindFrom(s: string, sub: string, start: nat): (r: Option<nat>)
    ensures r.Some? ==> start <= r.value && OccursAt(s, sub, r.value)
    decreases |s| - start
  {
    if start + |sub| > |s| then None
    else if OccursAt(s, sub, start) then Some(start)
    else FindFrom(s, sub, start + 1)
  }

  /** `FindFrom` skips no occurrence: none lies between `start` and the one it finds. */
  lemma {:induction false} FindFromLeftmost(s: string, sub: string, start: nat)
    ensures FindFrom(s, sub, start).Some? ==>
      forall j :: start <= j < FindFrom(s, sub, start).value ==> !OccursAt(s, sub, j)
    ensures FindFrom(s, sub, start).None? ==> forall j :: start <= j ==> !OccursAt(s, sub, j)
    decreases |s| - start
  {
    if start + |sub| > |s| {
    } else if OccursAt(s, sub, start) {
    } else {
      FindFromLeftmost(s, sub, start + 1);
    }
  }

  /** The leftmost occurrence of `sub`, if any: the search behind `in` and `split`. */
  function Find(s: string, sub: string): (r: Option<nat>)
    ensures r.Some? ==> OccursAt(s, sub, r.value)
  {
    FindFrom(s, sub, 0)
  }

  /** `Find` returns the leftmost occurrence, and nothing only when there is none. */
  lemma FindLeftmost(s: string, sub: string)
    ensures Find(s, sub).Some? ==> forall j :: 0 <= j < Find(s, sub).value ==> !OccursAt(s, sub, j)
    ensures Find(s, sub).None? ==> forall j :: !OccursAt(s, sub, j)
  {
    FindFromLeftmost(s, sub, 0);
  }

  /** The leftmost occurrence is the only one with no occurrence before it. */
  lemma FindIs(s: string, sub: string, i: nat)
    requires OccursAt(s, sub, i)
    requires forall j :: 0 <= j < i ==> !OccursAt(s, sub, j)
    ensures Find(s, sub) == Some(i)
  {
    FindLeftmost(s, sub);
  }

  /** Without any occurrence there is nothing to find. */
  lemma FindNone(s: string, sub: string)
    requires forall j :: !OccursAt(s, sub, j)
    ensures Find(s, sub) == None
  {
  }

  /** Python's `sub in s`. */
  predicate Contains(s: string, sub: string) {
    Find(s, sub).Some?
  }

  /** Without any occurrence, `sub in s` is false. */
  lemma NoOccurrence(s: string, sub: string)
    requires forall j :: 0 <= j && j + |sub| <= |s| ==> !OccursAt(s, sub, j)
    ensures !Contains(s, sub)
  {
    FindLeftmost(s, sub);
  }

  /** `sub in s` holds exactly when `sub` occurs somewhere in `s`. */
  lemma ContainsIff(s: string, sub: string)
    ensures Contains(s, sub) <==> exists i :: OccursAt(s, sub, i)
  {
    FindLeftmost(s, sub);
  }

  /** An occurrence makes `sub in s` true. */
  lemma ContainsAt(s: string, sub: string, i: int)
    requires OccursAt(s, sub, i)
    ensures Contains(s, sub)
  {
    FindLeftmost(s, sub);
  }

  /** An occurrence inside a prefix is an occurrence in the whole string. */
  lemma OccursInPrefix(s: string, sub: string, n: nat, j: int)
    requires n <= |s| && OccursAt(s[..n], sub, j)
    ensures OccursAt(s, sub, j) && j + |sub| <= n
  {
    assert s[..n][j..j + |sub|] == s[j..j + |sub|];
  }

  /** An occurrence in `a` is still one in `a + b`. */
  lemma ContainsExtend(a: string, b: string, sub: string)
    requires Contains(a, sub)
    ensures Contains(a + b, sub)
  {
    var i := Find(a, sub).value;
    assert (a + b)[i..i + |sub|] == a[i..i + |sub|];
    ContainsAt(a + b, sub, i);
  }

  /**
   * Python's `s.split(sep)` for a non-empty separator: the pieces between
   * the leftmost non-overlapping occurrences of `sep`, scanning left to right.
   */
  function Split(s: string, sep: string): (parts: seq<string>)
    requires |sep| > 0
    ensures |parts| >= 1
    ensures |parts| == 1 <==> !Contains(s, sep)
    decreases |s|, 1
  {
    SplitAt(s, sep, Find(s, sep))
  }

  /** `Split` once the leftmost occurrence `at` of the separator is known. */
  function SplitAt(s: string, sep: string, at: Option<nat>): (parts: seq<string>)
    requires |sep| > 0
    requires at.Some? ==> OccursAt(s, sep, at.value)
    ensures |parts| >= 1
    ensures |parts| == 1 <==> at.None?
    decreases |s|, 0
  {
    match at
    case None => [s]
    case Some(i) => [s[..i]] + Split(s[i + |sep|..], sep)
  }

  /** No piece of a split holds the separator. */
  lemma {:induction false} SplitPiecesFree(s: string, sep: string)
    requires |sep| > 0
    ensures forall k :: 0 <= k < |Split(s, sep)| ==> !Contains(Split(s, sep)[k], sep)
    decreases |s|
  {
    var f := Find(s, sep);
    if f.Some? {
      var i := f.value;
      var rest := s[i + |sep|..];
      FindLeftmost(s, sep);
      SplitStep(s, sep, i);
      SplitPiecesFree(rest, sep);
      if Contains(s[..i], sep) {
        OccursInPrefix(s, sep, i, Find(s[..i], sep).value);
      }
    }
  }

  /** Python's `sep.join(parts)`. */
  function Join(parts: seq<string>, sep: string): string
  {
    if |parts| == 0 then ""
    else if |parts| == 1 then parts[0]
    else parts[0] + sep + Join(parts[1..], sep)
  }

  /** Joining a part in front of at least one more adds one separator. */
  lemma JoinCons(a: string, tail: seq<string>, sep: string)
    requires |tail| >= 1
    ensures Join([a] + tail, sep) == a + sep + Join(tail, sep)
  {
    assert ([a] + tail)[1..] == tail;
  }

  /** One step of `Split` at the leftmost occurrence. */
  lemma SplitStep(s: string, sep: string, i: nat)
    requires |sep| > 0 && Find(s, sep) == Some(i)
    ensures i + |sep| <= |s|
    ensures Split(s, sep) == [s[..i]] + Split(s[i + |sep|..], sep)
  {
    assert OccursAt(s, sep, i);
    assert Split(s, sep) == SplitAt(s, sep, Some(i));
    assert SplitAt(s, sep, Some(i)) == [s[..i]] + Split(s[i + |sep|..], sep);
  }

  /** `SplitStep` with the remainder after the occurrence given by name. */
  lemma SplitStepTo(s: string, sep: string, i: nat, rest: string)
    requires |sep| > 0 && Find(s, sep) == Some(i)
    requires i + |sep| <= |s| && rest == s[i + |sep|..]
    ensures Split(s, sep) == [s[..i]] + Split(rest, sep)
  {
    SplitStep(s, sep, i);
  }

  /** Without an occurrence, the split is the whole string. */
  lemma SplitNone(s: string, sep: string)
    requires |sep| > 0 && Find(s, sep).None?
    ensures Split(s, sep) == [s]
  {
  }

  /** A string is the text before an occurrence, the occurrence, and the text after it. */
  lemma SliceAround(s: string, sub: string, i: nat)
    requires OccursAt(s, sub, i)
    ensures s == s[..i] + sub + s[i + |sub|..]
  {
  }

  /** Joining the pieces of a split with the same separator restores the string. */
  lemma {:induction false} JoinSplit(s: string, sep: string)
    requires |sep| > 0
    ensures Join(Split(s, sep), sep) == s
    decreases |s|
  {
    var f := Find(s, sep);
    if f.None? {
      SplitNone(s, sep);
    } else {
      var i := f.value;
      JoinSplit(s[i + |sep|..], sep);
      JoinSplitStep(s, sep, i);
    }
  }

  /** The step of `JoinSplit` at the leftmost occurrence, given the rest restores. */
  lemma JoinSplitStep(s: string, sep: string, i: nat)
    requires |sep| > 0 && Find(s, sep) == Some(i)
    requires i + |sep| <= |s| && Join(Split(s[i + |sep|..], sep), sep) == s[i + |sep|..]
    ensures Join(Split(s, sep), sep) == s
  {
    SplitStep(s, sep, i);
    JoinCons(s[..i], Split(s[i + |sep|..], sep), sep);
    SliceAround(s, sep, i);
  }

  /**
   * If `sep` does not occur in `p` extended by all but the last character of
   * `sep`, the leftmost occurrence of `sep` in `p + sep + rest` is the one
   * right after `p`.
   */
  lemma FindAfter(p: string, sep: string, rest: string)
    requires |sep| > 0
    requires !Contains(p + sep[..|sep| - 1], sep)
    ensures Find(p + sep + rest, sep) == Some(|p|)
  {
    var s := p + sep + rest;
    assert s[|p|..|p| + |sep|] == sep;
    assert OccursAt(s, sep, |p|);
    var q := p + sep[..|sep| - 1];
    FindLeftmost(q, sep);
    forall j | 0 <= j < |p|
      ensures !OccursAt(s, sep, j)
    {
      assert !OccursAt(q, sep, j);
      assert s[j..j + |sep|] == q[j..j + |sep|];
    }
    FindIs(s, sep, |p|);
  }

  /**
   * Splitting a join gives back the parts, provided no part, followed by a
   * proper prefix of the separator, contains the separator.
   */
  lemma {:induction false} SplitJoin(parts: seq<string>, sep: string)
    requires |sep| > 0 && |parts| >= 1
    requires forall k :: 0 <= k < |parts| ==> !Contains(parts[k] + sep[..|sep| - 1], sep)
    ensures Split(Join(parts, sep), sep) == parts
    decreases |parts|
  {
    if |parts| == 1 {
      if Contains(parts[0], sep) {
        ContainsExtend(parts[0], sep[..|sep| - 1], sep);
      }
      SplitNone(parts[0], sep);
    } else {
      var tail := Join(parts[1..], sep);
      JoinCons(parts[0], parts[1..], sep);
      assert parts == [parts[0]] + parts[1..];
      var s := parts[0] + sep + tail;
      assert Join(parts, sep) == s;
      FindAfter(parts[0], sep, tail);
      SplitStep(s, sep, |parts[0]|);
      assert s[..|parts[0]|] == parts[0];
      assert s[|parts[0]| + |sep|..] == tail;
      SplitJoin(parts[1..], sep);
    }
  }

  /**
   * Python's `s.replace(pat, rep)` for a non-empty pattern: scans left to
   * right and replaces each non-overlapping occurrence of `pat` by `rep`.
   */
  function Replace(s: string, pat: string, rep: string): string
    requires |pat| > 0
    decreases |s|
  {
    if |s| < |pat| then s
    else if s[..|pat|] == pat then rep + Replace(s[|pat|..], pat, rep)
    else [s[0]] + Replace(s[1..], pat, rep)
  }

  /** The scan agrees with Python's identity `s.replace(pat, rep) == rep.join(s.split(pat))`. */
  lemma {:induction false} ReplaceIsJoinOfSplit(s: string, pat: string, rep: string)
    requires |pat| > 0
    ensures Replace(s, pat, rep) == Join(Split(s, pat), rep)
    decreases |s|
  {
    if |s| < |pat| {
    } else if s[..|pat|] == pat {
      FindIs(s, pat, 0);
      SplitStep(s, pat, 0);
      ReplaceIsJoinOfSplit(s[|pat|..], pat, rep);
      JoinCons(s[..0], Split(s[|pat|..], pat), rep);
    } else {
      ReplaceIsJoinOfSplit(s[1..], pat, rep);
      ReplaceSkip(s, pat, rep);
    }
  }

  /**
   * The step of `ReplaceIsJoinOfSplit` where `s` does not start with the
   * pattern, given the identity for `s[1..]`.
   */
  lemma ReplaceSkip(s: string, pat: string, rep: string)
    requires |pat| > 0 && |s| >= |pat| && s[..|pat|] != pat
    requires Replace(s[1..], pat, rep) == Join(Split(s[1..], pat), rep)
    ensures Replace(s, pat, rep) == Join(Split(s, pat), rep)
  {
    var t := s[1..];
    assert Replace(s, pat, rep) == [s[0]] + Join(Split(t, pat), rep);
    var f := Find(t, pat);
    if f.None? {
      SkipNone(s, pat, rep);
    } else {
      SkipSome(s, pat, rep, f.value);
    }
  }

  /** `ReplaceSkip` when the rest of the string holds no occurrence. */
  lemma SkipNone(s: string, pat: string, rep: string)
    requires |pat| > 0 && |s| >= |pat| && s[..|pat|] != pat && Find(s[1..], pat).None?
    ensures Join(Split(s, pat), rep) == [s[0]] + Join(Split(s[1..], pat), rep)
  {
    FindLeftmost(s[1..], pat);
    forall j ensures !OccursAt(s, pat, j) {
      if j >= 1 {
        OccursShift(s, pat, j - 1);
      }
    }
    FindNone(s, pat);
    assert s == [s[0]] + s[1..];
  }

  /** When `s` does not start with the pattern, its leftmost occurrence is the one of `s[1..]`, shifted by one. */
  lemma SkipSomeFind(s: string, pat: string, i: nat)
    requires |pat| > 0 && |s| >= |pat| && s[..|pat|] != pat && Find(s[1..], pat) == Some(i)
    ensures Find(s, pat) == Some(i + 1)
  {
    FindLeftmost(s[1..], pat);
    OccursShift(s, pat, i);
    forall j | 0 <= j < i + 1 ensures !OccursAt(s, pat, j) {
      if j >= 1 {
        OccursShift(s, pat, j - 1);
      }
    }
    FindIs(s, pat, i + 1);
  }

  /** `ReplaceSkip` when the rest of the string holds an occurrence at `i`. */
  lemma SkipSome(s: string, pat: string, rep: string, i: nat)
    requires |pat| > 0 && |s| >= |pat| && s[..|pat|] != pat && Find(s[1..], pat) == Some(i)
    ensures Join(Split(s, pat), rep) == [s[0]] + Join(Split(s[1..], pat), rep)
  {
    SkipSomeFind(s, pat, i);
    var rest := s[i + 1 + |pat|..];
    SplitStepTo(s, pat, i + 1, rest);
    DropFirst(s, i, i + |pat|);
    SplitStepTo(s[1..], pat, i, rest);
    JoinAround(Split(s, pat), Split(s[1..], pat), s[..i + 1], s[0], s[1..][..i], Split(rest, pat), rep);
  }

  /** Slices of `s[1..]` are slices of `s` shifted by one. */
  lemma DropFirst(s: string, i: nat, k: nat)
    requires i < |s| && k < |s|
    ensures s[..i + 1] == [s[0]] + s[1..][..i]
    ensures s[1..][k..] == s[k + 1..]
  {
  }

  /** Moving a first character out of the first part moves it out of the join. */
  lemma JoinAround(ps: seq<string>, pt: seq<string>, a: string, c: char, b: string, tail: seq<string>, rep: string)
    requires ps == [a] + tail && pt == [b] + tail && a == [c] + b && |tail| >= 1
    ensures Join(ps, rep) == [c] + Join(pt, rep)
  {
    JoinCons(a, tail, rep);
    JoinCons(b, tail, rep);
  }

  /** A string without the pattern is left as it is. */
  lemma {:induction false} ReplaceAbsent(s: string, pat: string, rep: string)
    requires |pat| > 0 && !Contains(s, pat)
    ensures Replace(s, pat, rep) == s
  {
    ReplaceIsJoinOfSplit(s, pat, rep);
  }

  /** Replacing by something shorter strictly shortens any string holding the pattern. */
  lemma {:induction false} ReplaceShortens(s: string, pat: string, rep: string)
    requires |pat| > 0 && |rep| < |pat|
    ensures |Replace(s, pat, rep)| <= |s|
    ensures Contains(s, pat) ==> |Replace(s, pat, rep)| < |s|
    decreases |s|
  {
    if |s| < |pat| {
    } else if s[..|pat|] == pat {
      ReplaceShortens(s[|pat|..], pat, rep);
    } else {
      ReplaceShortens(s[1..], pat, rep);
      if Contains(s, pat) {
        var i := Find(s, pat).value;
        assert i != 0;
        OccursShift(s, pat, i - 1);
        ContainsAt(s[1..], pat, i - 1);
      }
    }
  }

  /** Joining two non-empty lists puts one separator between their joins. */
  lemma {:induction false} JoinAppend(a: seq<string>, b: seq<string>, sep: string)
    requires |a| >= 1 && |b| >= 1
    ensures Join(a + b, sep) == Join(a, sep) + sep + Join(b, sep)
    decreases |a|
  {
    if |a| == 1 {
      JoinCons(a[0], b, sep);
      assert a + b == [a[0]] + b;
    } else {
      JoinAppend(a[1..], b, sep);
      assert (a + b)[1..] == a[1..] + b;
      JoinCons(a[0], a[1..] + b, sep);
      JoinCons(a[0], a[1..], sep);
      assert a + b == [a[0]] + (a[1..] + b);
      assert a == [a[0]] + a[1..];
    }
  }

  /** A join begins with its first part. */
  lemma JoinStartsWith(parts: seq<string>, sep: string)
    requires |parts| >= 1
    ensures |parts[0]| <= |Join(parts, sep)|
    ensures Join(parts, sep)[..|parts[0]|] == parts[0]
  {
    if |parts| > 1 {
      JoinCons(parts[0], parts[1..], sep);
      assert parts == [parts[0]] + parts[1..];
    }
  }

  /** A text made of a front, a separator and a back that begins with `p` holds `sep + p`. */
  lemma ContainsBetween(text: string, front: string, sep: string, back: string, p: string)
    requires text == front + sep + back && |p| <= |back| && back[..|p|] == p
    ensures Contains(text, sep + p)
  {
    assert text[|front|..|front| + |sep + p|] == sep + p;
    ContainsAt(text, sep + p, |front|);
  }

  /** Every part after the first appears in the join right behind a separator. */
  lemma JoinShowsPart(parts: seq<string>, k: nat, sep: string)
    requires 0 < k < |parts|
    ensures Contains(Join(parts, sep), sep + parts[k])
  {
    JoinAppend(parts[..k], parts[k..], sep);
    assert parts[..k] + parts[k..] == parts;
    JoinStartsWith(parts[k..], sep);
    ContainsBetween(Join(parts, sep), Join(parts[..k], sep), sep, Join(parts[k..], sep), parts[k]);
  }
}

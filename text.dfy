/**
 * The JavaScript string operations the handlers rely on: `startsWith`,
 * `indexOf` and `split` with a string separator, together with `join`, the
 * operation that undoes `split`.
 */
module Text {
  import opened Values

  predicate StartsWith(s: string, prefix: string) {
    |prefix| <= |s| && s[..|prefix|] == prefix
  }

  /** `sep` occurs in `s` starting at index `j`. */
  predicate OccursAt(s: string, sep: string, j: int) {
    0 <= j && j + |sep| <= |s| && s[j..j + |sep|] == sep
  }

  predicate Contains(s: string, sep: string) {
    exists j :: 0 <= j <= |s| - |sep| && OccursAt(s, sep, j)
  }

  /** `s.indexOf(sep, from)`, with `None` for JavaScript's -1. */
  function IndexOfFrom(s: string, sep: string, from: nat): (r: Option<nat>)
    requires |sep| > 0 && from <= |s|
    ensures r.Some? ==> from <= r.value && OccursAt(s, sep, r.value)
    ensures r.Some? ==> forall j :: from <= j < r.value ==> !OccursAt(s, sep, j)
    ensures r.None? ==> forall j :: from <= j ==> !OccursAt(s, sep, j)
    decreases |s| - from
  {
    if from + |sep| > |s| then None
    else if s[from..from + |sep|] == sep then Some(from)
    else IndexOfFrom(s, sep, from + 1)
  }

  /** `s.indexOf(sep)`: the first occurrence of `sep` in `s`. */
  function IndexOf(s: string, sep: string): (r: Option<nat>)
    requires |sep| > 0
    ensures r.Some? ==> OccursAt(s, sep, r.value) && forall j :: 0 <= j < r.value ==> !OccursAt(s, sep, j)
    ensures r.None? <==> !Contains(s, sep)
  {
    IndexOfFrom(s, sep, 0)
  }

  /** `s.split(sep)` for a non-empty string separator: the pieces between the
      successive leftmost occurrences of `sep`; the empty string gives `[""]`. */
  function Split(s: string, sep: string): (r: seq<string>)
    requires |sep| > 0
    ensures |r| >= 1
    ensures forall k :: 0 <= k < |r| ==> !Contains(r[k], sep)
    decreases |s|
  {
    match IndexOf(s, sep)
    case None => [s]
    case Some(i) =>
      PrefixBeforeFirst(s, sep, i);
      [s[..i]] + Split(s[i + |sep|..], sep)
  }

  /** The piece before the first occurrence of `sep` does not contain `sep`. */
  lemma PrefixBeforeFirst(s: string, sep: string, i: nat)
    requires |sep| > 0 && i <= |s|
    requires forall j :: 0 <= j < i ==> !OccursAt(s, sep, j)
    ensures !Contains(s[..i], sep)
  {
    forall j | 0 <= j <= i - |sep| && OccursAt(s[..i], sep, j)
      ensures false
    {
      assert s[..i][j..j + |sep|] == s[j..j + |sep|];
      assert OccursAt(s, sep, j);
    }
  }

  /** `parts.join(sep)`. */
  function Join(parts: seq<string>, sep: string): string
    decreases |parts|
  {
    if |parts| == 0 then ""
    else if |parts| == 1 then parts[0]
    else parts[0] + sep + Join(parts[1..], sep)
  }

  lemma JoinCons(p: string, tail: seq<string>, sep: string)
    requires |tail| >= 1
    ensures Join([p] + tail, sep) == p + sep + Join(tail, sep)
  {
    assert ([p] + tail)[1..] == tail;
  }

  lemma CutAt(s: string, sep: string, i: nat)
    requires OccursAt(s, sep, i)
    ensures s == s[..i] + sep + s[i + |sep|..]
  {
    assert s == s[..i] + s[i..i + |sep|] + s[i + |sep|..];
  }

  /** Joining the pieces of a split gives back the original string. */
  lemma {:induction false} JoinSplit(s: string, sep: string)
    requires |sep| > 0
    ensures Join(Split(s, sep), sep) == s
    decreases |s|
  {
    var idx := IndexOf(s, sep);
    if idx.Some? {
      var i := idx.value;
      var rest := s[i + |sep|..];
      JoinSplit(rest, sep);
      JoinCons(s[..i], Split(rest, sep), sep);
      CutAt(s, sep, i);
    }
  }

  /** The characters of `s` before the first `c`: the first piece of `s.split(c)`. */
  function TakeUntil(s: string, c: char): (r: string)
    ensures StartsWith(s, r)
    ensures c !in r
    ensures |r| < |s| ==> s[|r|] == c
    decreases |s|
  {
    if |s| == 0 || s[0] == c then "" else [s[0]] + TakeUntil(s[1..], c)
  }

  /** `TakeUntil` stops at the first `c`. */
  lemma {:induction false} TakeUntilFirst(a: string, c: char, b: string)
    requires c !in a
    ensures TakeUntil(a + [c] + b, c) == a
    decreases |a|
  {
    if |a| > 0 {
      TakeUntilFirst(a[1..], c, b);
      assert (a + [c] + b)[1..] == a[1..] + [c] + b;
    }
  }

  /** A string without `c` is kept whole. */
  lemma {:induction false} TakeUntilWhole(s: string, c: char)
    requires c !in s
    ensures TakeUntil(s, c) == s
    decreases |s|
  {
    if |s| > 0 {
      TakeUntilWhole(s[1..], c);
    }
  }

  /** A one-character separator occurs in `s` exactly where the character does. */
  lemma OneCharOccurs(s: string, c: char, j: int)
    ensures OccursAt(s, [c], j) <==> 0 <= j < |s| && s[j] == c
  {
    if 0 <= j < |s| {
      assert s[j..j + 1] == [s[j]];
    }
  }

  /** The first piece of `s.split(c)` is everything before the first `c`. */
  lemma {:induction false} SplitOneCharHead(s: string, c: char)
    ensures Split(s, [c])[0] == TakeUntil(s, c)
  {
    var t := TakeUntil(s, c);
    forall j | 0 <= j < |t|
      ensures !OccursAt(s, [c], j)
    {
      OneCharOccurs(s, c, j);
      assert s[j] == t[j];
    }
    match IndexOf(s, [c])
    case None =>
      if |t| < |s| {
        OneCharOccurs(s, c, |t|);
      }
      assert t == s[..|t|];
    case Some(i) =>
      OneCharOccurs(s, c, i);
      if |t| < |s| {
        OneCharOccurs(s, c, |t|);
      }
      assert i == |t|;
      assert t == s[..|t|];
  }

  /** No occurrence of a separator that begins with `c` can start inside a string free of `c`. */
  lemma NoOccurrenceInside(p: string, sep: string, rest: string, j: int)
    requires |sep| > 0 && sep[0] !in p
    requires 0 <= j < |p|
    ensures !OccursAt(p + rest, sep, j)
  {
    assert (p + rest)[j] == p[j];
    if j + |sep| <= |p| + |rest| {
      assert (p + rest)[j..j + |sep|][0] == (p + rest)[j];
    }
  }

  /** Splitting `p + sep + rest` at the leftmost `sep` cuts right after `p` when
      `p` does not contain the separator's first character. */
  lemma SplitAfterPiece(p: string, sep: string, rest: string)
    requires |sep| > 0 && sep[0] !in p
    ensures Split(p + sep + rest, sep) == [p] + Split(rest, sep)
  {
    var s := p + sep + rest;
    forall j | 0 <= j < |p|
      ensures !OccursAt(s, sep, j)
    {
      NoOccurrenceInside(p, sep, sep + rest, j);
      assert p + (sep + rest) == s;
    }
    assert s[|p|..|p| + |sep|] == sep;
    assert OccursAt(s, sep, |p|);
    assert IndexOf(s, sep) == Some(|p|);
    assert s[..|p|] == p;
    assert s[|p| + |sep|..] == rest;
  }

  /** A string free of the separator's first character is split into itself alone. */
  lemma SplitWhole(p: string, sep: string)
    requires |sep| > 0 && sep[0] !in p
    ensures Split(p, sep) == [p]
  {
    forall j | 0 <= j < |p|
      ensures !OccursAt(p, sep, j)
    {
      NoOccurrenceInside(p, sep, "", j);
      assert p + "" == p;
    }
    assert IndexOf(p, sep).None?;
  }

  /** Splitting a join gives back the parts, when no part contains the separator's first character. */
  lemma {:induction false} SplitJoin(parts: seq<string>, sep: string)
    requires |sep| > 0 && |parts| >= 1
    requires forall k :: 0 <= k < |parts| ==> sep[0] !in parts[k]
    ensures Split(Join(parts, sep), sep) == parts
    decreases |parts|
  {
    if |parts| == 1 {
      SplitWhole(parts[0], sep);
    } else {
      SplitJoin(parts[1..], sep);
      SplitAfterPiece(parts[0], sep, Join(parts[1..], sep));
      assert parts == [parts[0]] + parts[1..];
    }
  }
}

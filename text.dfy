/**
 * String operations of the JavaScript runtime that the application relies on:
 * `Array.prototype.join(" ")`, `String.prototype.replace` with a string pattern
 * (first occurrence only) and `String.prototype.toLowerCase` on ASCII letters.
 * `Split` is the reference inverse of `Join`.
 */
module Text {
  import opened Wrappers

  /** `xs.join(" ")`: the elements in order, separated by single spaces. */
  function Join(xs: seq<string>): string
  {
    if |xs| == 0 then ""
    else if |xs| == 1 then xs[0]
    else xs[0] + " " + Join(xs[1..])
  }

  predicate OccursAt(s: string, pat: string, k: nat)
  {
    k + |pat| <= |s| && s[k..k + |pat|] == pat
  }

  /** The first index at or after `from` where `pat` occurs in `s`. */
  function FindFrom(s: string, pat: string, from: nat): (r: Option<nat>)
    decreases |s| - from
    ensures r.Some? ==> from <= r.value && OccursAt(s, pat, r.value)
    ensures r.Some? ==> forall j :: from <= j < r.value ==> !OccursAt(s, pat, j)
    ensures r.None? ==> forall j :: from <= j ==> !OccursAt(s, pat, j)
  {
    if from + |pat| > |s| then None
    else if s[from..from + |pat|] == pat then Some(from)
    else FindFrom(s, pat, from + 1)
  }

  /** `s.indexOf(pat)`, as an option. */
  function FindFirst(s: string, pat: string): (r: Option<nat>)
  {
    FindFrom(s, pat, 0)
  }

  /** `s.replace(pat, "")`: removes the first occurrence of `pat` only. */
  function StripFirst(s: string, pat: string): (r: string)
    ensures FindFirst(s, pat).None? ==> r == s
    ensures FindFirst(s, pat).Some? ==> |r| == |s| - |pat|
  {
    match FindFirst(s, pat)
    case None => s
    case Some(k) => s[..k] + s[k + |pat|..]
  }

  /** A string with no earlier occurrence of `pat` than `k`, and one at `k`, has its first occurrence at `k`. */
  lemma FirstOccurrence(s: string, pat: string, k: nat)
    requires OccursAt(s, pat, k)
    requires forall j :: 0 <= j < k ==> !OccursAt(s, pat, j)
    ensures FindFirst(s, pat) == Some(k)
  {
  }

  /** Removing a leading `pat` gives back what followed it, whatever else the rest contains. */
  lemma StripLeading(pat: string, rest: string)
    ensures StripFirst(pat + rest, pat) == rest
  {
    assert OccursAt(pat + rest, pat, 0) by { assert (pat + rest)[..|pat|] == pat; }
    FirstOccurrence(pat + rest, pat, 0);
    assert (pat + rest)[|pat|..] == rest;
  }

  /** Only the first occurrence is removed: text before it and after it is kept, later occurrences included. */
  lemma StripKeepsSurroundings(before: string, pat: string, after: string)
    requires |pat| > 0
    requires forall j :: 0 <= j < |before| ==> !OccursAt(before + pat + after, pat, j)
    ensures StripFirst(before + pat + after, pat) == before + after
  {
    var s := before + pat + after;
    assert OccursAt(s, pat, |before|) by { assert s[|before|..|before| + |pat|] == pat; }
    FirstOccurrence(s, pat, |before|);
    assert s[..|before|] == before;
    assert s[|before| + |pat|..] == after;
  }

  /** The reference inverse of `Join`: `s.split(" ")`. */
  function Split(s: string): (r: seq<string>)
    decreases |s|
    ensures |r| > 0
  {
    match FindFirst(s, " ")
    case None => [s]
    case Some(k) => [s[..k]] + Split(s[k + 1..])
  }

  predicate NoSpace(x: string)
  {
    forall i :: 0 <= i < |x| ==> x[i] != ' '
  }

  lemma SplitFirstPiece(x: string, rest: string)
    requires NoSpace(x)
    ensures FindFirst(x + " " + rest, " ") == Some(|x|)
  {
    var s := x + " " + rest;
    assert OccursAt(s, " ", |x|) by { assert s[|x|..|x| + 1] == [s[|x|]]; }
    forall j | 0 <= j < |x| ensures !OccursAt(s, " ", j) {
      assert s[j..j + 1] == [x[j]];
    }
    FirstOccurrence(s, " ", |x|);
  }

  lemma NoSpaceNotFound(x: string)
    requires NoSpace(x)
    ensures FindFirst(x, " ").None?
  {
    forall k | 0 <= k < |x| ensures !OccursAt(x, " ", k) {
      assert x[k..k + 1] == [x[k]];
    }
  }

  /** Splitting a join recovers the pieces, provided no piece contains a space. */
  lemma {:induction false} SplitJoin(xs: seq<string>)
    requires |xs| > 0
    requires forall i :: 0 <= i < |xs| ==> NoSpace(xs[i])
    ensures Split(Join(xs)) == xs
  {
    if |xs| == 1 {
      NoSpaceNotFound(xs[0]);
    } else {
      var rest := Join(xs[1..]);
      SplitFirstPiece(xs[0], rest);
      var s := xs[0] + " " + rest;
      assert s[..|xs[0]|] == xs[0];
      assert s[|xs[0]| + 1..] == rest;
      SplitJoin(xs[1..]);
      assert [xs[0]] + xs[1..] == xs;
    }
  }

  /** Joining the pieces of a split gives back the original string. */
  lemma {:induction false} JoinSplit(s: string)
    decreases |s|
    ensures Join(Split(s)) == s
  {
    match FindFirst(s, " ")
    case None =>
    case Some(k) =>
      var tail := Split(s[k + 1..]);
      JoinSplit(s[k + 1..]);
      assert Split(s) == [s[..k]] + tail;
      assert ([s[..k]] + tail)[1..] == tail;
      assert s[k..k + 1] == " ";
      assert s == s[..k] + " " + s[k + 1..];
  }

  predicate IsUpper(c: char)
  {
    'A' <= c <= 'Z'
  }

  /** `toLowerCase` on ASCII letters; every other character is kept. */
  function LowerChar(c: char): (r: char)
    ensures !IsUpper(r)
    ensures !IsUpper(c) ==> r == c
  {
    if IsUpper(c) then (c as int - 'A' as int + 'a' as int) as char else c
  }

  function Lower(s: string): (r: string)
    ensures |r| == |s|
    ensures forall i :: 0 <= i < |s| ==> r[i] == LowerChar(s[i])
  {
    seq(|s|, i requires 0 <= i < |s| => LowerChar(s[i]))
  }

  /** A string without upper-case letters is its own lower case. */
  lemma LowerOfLowercase(s: string)
    requires forall i :: 0 <= i < |s| ==> !IsUpper(s[i])
    ensures Lower(s) == s
  {
  }

  /** Lower-casing twice is lower-casing once. */
  lemma LowerIdempotent(s: string)
    ensures Lower(Lower(s)) == Lower(s)
  {
  }
}

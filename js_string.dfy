/** The parts of JavaScript's string built-ins that the app relies on:
    `String.prototype.trim`, the regular-expression classes `\s` and `.`,
    a left-to-right search for a literal, `split` with a string separator,
    and `replace` with a global literal pattern and an empty replacement.
    Strings are sequences of characters; the markers the app searches for
    are all ASCII, so the UTF-16 code units JavaScript works on play no part. */
module JsString {
  import opened Wrappers
  import opened Sequences

  /** JavaScript's WhiteSpace and LineTerminator code points. `trim` strips
      exactly these and the regular-expression class `\s` matches exactly
      these, so one predicate serves both. */
  predicate IsSpace(c: char) {
    || c == '\t' || c == '\n' || c == '\U{B}' || c == '\U{C}' || c == '\r' || c == ' '
    || c == '\U{A0}' || c == '\U{1680}' || ('\U{2000}' <= c <= '\U{200A}')
    || c == '\U{2028}' || c == '\U{2029}' || c == '\U{202F}' || c == '\U{205F}'
    || c == '\U{3000}' || c == '\U{FEFF}'
  }

  /** The characters the regular-expression `.` does not match (no `s` flag). */
  predicate IsLineTerminator(c: char) {
    c == '\n' || c == '\r' || c == '\U{2028}' || c == '\U{2029}'
  }

  predicate AllSpaceIn(s: string, lo: int, hi: int)
    requires 0 <= lo <= hi <= |s|
  {
    forall k :: lo <= k < hi ==> IsSpace(s[k])
  }

  predicate AllSpace(s: string) {
    AllSpaceIn(s, 0, |s|)
  }

  /** The end of the run of whitespace that starts at `k`: what a greedy `\s*` consumes. */
  function SkipSpace(s: string, k: nat): (r: nat)
    requires k <= |s|
    ensures k <= r <= |s|
    ensures AllSpaceIn(s, k, r)
    ensures r < |s| ==> !IsSpace(s[r])
    decreases |s| - k
  {
    if k < |s| && IsSpace(s[k]) then SkipSpace(s, k + 1) else k
  }

  /** The start of the run of whitespace that ends at `hi`, not going below `lo`. */
  function BackSpace(s: string, lo: nat, hi: nat): (r: nat)
    requires lo <= hi <= |s|
    ensures lo <= r <= hi
    ensures AllSpaceIn(s, r, hi)
    ensures r > lo ==> !IsSpace(s[r - 1])
    decreases hi
  {
    if hi > lo && IsSpace(s[hi - 1]) then BackSpace(s, lo, hi - 1) else hi
  }

  /** The first line terminator at or after `k`, or the end: what a greedy `.*` consumes. */
  function LineEnd(s: string, k: nat): (r: nat)
    requires k <= |s|
    ensures k <= r <= |s|
    ensures forall j :: k <= j < r ==> !IsLineTerminator(s[j])
    ensures r < |s| ==> IsLineTerminator(s[r])
    decreases |s| - k
  {
    if k < |s| && !IsLineTerminator(s[k]) then LineEnd(s, k + 1) else k
  }

  /** The first position past the run of whitespace that `String.prototype.trim` removes in front. */
  function TrimStart(s: string): nat
    ensures TrimStart(s) <= |s|
  {
    SkipSpace(s, 0)
  }

  /** The position where the run of whitespace that `trim` removes at the back begins. */
  function TrimEnd(s: string): nat
    ensures TrimStart(s) <= TrimEnd(s) <= |s|
  {
    BackSpace(s, TrimStart(s), |s|)
  }

  /** `String.prototype.trim`. */
  function Trim(s: string): (r: string)
    ensures |r| <= |s|
    ensures r == [] || (!IsSpace(r[0]) && !IsSpace(r[|r| - 1]))
    ensures r == [] <==> AllSpace(s)
    ensures AllSpaceIn(s, 0, TrimStart(s)) && AllSpaceIn(s, TrimEnd(s), |s|)
  {
    s[TrimStart(s)..TrimEnd(s)]
  }

  /** `trim` is characterised by what it keeps: surrounded by whitespace, a
      string that neither starts nor ends with whitespace is the trimmed result. */
  lemma TrimUnique(w1: string, t: string, w2: string)
    requires AllSpace(w1) && AllSpace(w2)
    requires t == [] || (!IsSpace(t[0]) && !IsSpace(t[|t| - 1]))
    ensures Trim(w1 + t + w2) == t
  {
    var s := w1 + t + w2;
    if t == [] {
      assert AllSpace(s) by {
        forall k | 0 <= k < |s| ensures IsSpace(s[k]) {
          if k < |w1| { assert s[k] == w1[k]; } else { assert s[k] == w2[k - |w1|]; }
        }
      }
    } else {
      var a := TrimStart(s);
      assert s[|w1|] == t[0];
      assert a == |w1|;
      var b := TrimEnd(s);
      assert s[|w1| + |t| - 1] == t[|t| - 1];
      assert b == |w1| + |t|;
      assert s[a..b] == t;
    }
  }

  /** Whitespace in front does not change the trimmed result. */
  lemma TrimLeadingSpace(w: string, s: string)
    requires AllSpace(w)
    ensures Trim(w + s) == Trim(s)
  {
    var a, b := TrimStart(s), TrimEnd(s);
    var w1, w2 := w + s[..a], s[b..];
    assert AllSpace(w1) by {
      forall k | 0 <= k < |w1| ensures IsSpace(w1[k]) {
        if k < |w| { } else { assert w1[k] == s[k - |w|]; }
      }
    }
    assert w + s == w1 + Trim(s) + w2;
    TrimUnique(w1, Trim(s), w2);
  }

  /** Trimming a slice whose first `p - m` characters are whitespace is
      trimming the slice without them. */
  lemma TrimSkipsSpace(s: string, m: int, p: int, e: int)
    requires 0 <= m <= p <= e <= |s|
    requires AllSpaceIn(s, m, p)
    ensures Trim(s[m..e]) == Trim(s[p..e])
  {
    var w := s[m..p];
    assert AllSpace(w) by {
      forall k | 0 <= k < |w| ensures IsSpace(w[k]) {
        assert w[k] == s[m + k];
      }
    }
    assert s[m..e] == w + s[p..e];
    TrimLeadingSpace(w, s[p..e]);
  }

  /** `trim` is idempotent. */
  lemma TrimIdempotent(s: string)
    ensures Trim(Trim(s)) == Trim(s)
  {
    assert Trim(s) == [] + Trim(s) + [];
    TrimUnique([], Trim(s), []);
  }

  /** The trimmed result is a contiguous part of its input. */
  lemma TrimIsInfix(s: string)
    ensures forall c :: c in Trim(s) ==> c in s
  {
    forall c | c in Trim(s) ensures c in s {
      var k :| 0 <= k < |Trim(s)| && Trim(s)[k] == c;
      assert s[TrimStart(s) + k] == c;
    }
  }

  /** `p` occurs in `s` at position `i`. */
  predicate OccursAt(s: string, p: string, i: int) {
    0 <= i && i + |p| <= |s| && s[i..i + |p|] == p
  }

  predicate Contains(s: string, p: string) {
    exists i :: 0 <= i <= |s| && OccursAt(s, p, i)
  }

  /** No occurrence of `p` starts in `[lo, hi)`. */
  predicate NoOccurrenceIn(s: string, p: string, lo: int, hi: int) {
    forall i :: lo <= i < hi ==> !OccursAt(s, p, i)
  }

  /** The leftmost occurrence of the literal `p` in `s` at or after `k`:
      where a regular expression that starts with `p` finds its match. */
  function IndexOfFrom(s: string, p: string, k: nat): (r: Option<nat>)
    requires k <= |s|
    ensures r.Some? ==> k <= r.value && OccursAt(s, p, r.value) && NoOccurrenceIn(s, p, k, r.value)
    ensures r.None? ==> forall i :: k <= i ==> !OccursAt(s, p, i)
    decreases |s| - k
  {
    if k + |p| > |s| then None
    else if s[k..k + |p|] == p then Some(k)
    else IndexOfFrom(s, p, k + 1)
  }

  /** The leftmost occurrence is unique: any occurrence with none before it is the one found. */
  lemma IndexOfFromIsFirst(s: string, p: string, k: nat, i: int)
    requires k <= i && k <= |s|
    requires OccursAt(s, p, i) && NoOccurrenceIn(s, p, k, i)
    ensures IndexOfFrom(s, p, k) == Some(i)
  {
  }

  /** An occurrence inside a slice is an occurrence in the whole string. */
  lemma OccursInSlice(s: string, p: string, lo: int, hi: int, j: int)
    requires 0 <= lo <= hi <= |s|
    requires OccursAt(s[lo..hi], p, j)
    ensures OccursAt(s, p, lo + j) && lo + j + |p| <= hi
  {
    var a, b := s[lo..hi][j..j + |p|], s[lo + j..lo + j + |p|];
    forall k | 0 <= k < |p| ensures a[k] == b[k] {
      assert a[k] == s[lo + j + k];
    }
    assert a == b;
  }

  /** An occurrence inside a suffix is an occurrence in the whole string. */
  lemma OccursInSuffix(s: string, p: string, lo: int, j: int)
    requires 0 <= lo <= |s|
    requires OccursAt(s[lo..], p, j)
    ensures OccursAt(s, p, lo + j)
  {
    assert s[lo..] == s[lo..|s|];
    OccursInSlice(s, p, lo, |s|, j);
  }

  /** The number of non-overlapping occurrences of `p` found scanning left to right. */
  function CountOccurrences(s: string, p: string): nat
    requires |p| > 0
    decreases |s|
  {
    if |s| < |p| then 0
    else if s[..|p|] == p then 1 + CountOccurrences(s[|p|..], p)
    else CountOccurrences(s[1..], p)
  }

  /** Positions before the first occurrence contribute nothing to the count. */
  lemma {:induction false} CountSkipsPrefix(s: string, p: string, k: nat)
    requires |p| > 0 && k <= |s|
    requires NoOccurrenceIn(s, p, 0, k)
    ensures CountOccurrences(s, p) == CountOccurrences(s[k..], p)
    decreases k
  {
    if k > 0 {
      assert !OccursAt(s, p, 0);
      if |s| >= |p| {
        assert NoOccurrenceIn(s[1..], p, 0, k - 1) by {
          forall i | 0 <= i < k - 1 ensures !OccursAt(s[1..], p, i) {
            if OccursAt(s[1..], p, i) { OccursInSuffix(s, p, 1, i); }
          }
        }
        CountSkipsPrefix(s[1..], p, k - 1);
        assert s[1..][k - 1..] == s[k..];
      }
    }
  }

  /** The count restarts after the leftmost occurrence, and is zero without one. */
  lemma CountAfterFirst(s: string, p: string)
    requires |p| > 0
    ensures IndexOfFrom(s, p, 0).None? ==> CountOccurrences(s, p) == 0
    ensures IndexOfFrom(s, p, 0).Some? ==>
      var i := IndexOfFrom(s, p, 0).value;
      CountOccurrences(s, p) == 1 + CountOccurrences(s[i + |p|..], p)
  {
    match IndexOfFrom(s, p, 0)
    case None =>
      CountSkipsPrefix(s, p, |s|);
    case Some(i) =>
      CountSkipsPrefix(s, p, i);
      assert s[i..][..|p|] == p;
      assert s[i..][|p|..] == s[i + |p|..];
  }

  /** The count is zero exactly when the pattern does not occur. */
  lemma CountZeroIff(s: string, p: string)
    requires |p| > 0
    ensures CountOccurrences(s, p) == 0 <==> !Contains(s, p)
  {
    CountAfterFirst(s, p);
  }

  /** `s.split(sep)` for a non-empty string separator: the pieces between the
      non-overlapping occurrences found left to right. There is one more
      piece than there are occurrences, and joining the pieces with the
      separator gives back the string. */
  function Split(s: string, sep: string): (r: seq<string>)
    requires |sep| > 0
    ensures |r| == CountOccurrences(s, sep) + 1
    ensures Join(r, sep) == s
    decreases |s|
  {
    CountAfterFirst(s, sep);
    var f := IndexOfFrom(s, sep, 0);
    if f.None? then [s]
    else
      var i := f.value;
      var rest := Split(s[i + |sep|..], sep);
      JoinCons(s[..i], rest, sep);
      assert s[i..i + |sep|] == sep;
      assert s[..i] + sep + s[i + |sep|..] == s;
      [s[..i]] + rest
  }

  /** No piece of a split holds the separator. */
  lemma {:induction false} SplitPiecesClean(s: string, sep: string)
    requires |sep| > 0
    ensures forall k :: 0 <= k < |Split(s, sep)| ==> !Contains(Split(s, sep)[k], sep)
    decreases |s|
  {
    match IndexOfFrom(s, sep, 0)
    case None =>
    case Some(i) =>
      var head, rest := s[..i], s[i + |sep|..];
      assert !Contains(head, sep) by {
        if j :| 0 <= j <= |head| && OccursAt(head, sep, j) { OccursInSlice(s, sep, 0, i, j); }
      }
      SplitPiecesClean(rest, sep);
      assert Split(s, sep) == [head] + Split(rest, sep);
  }

  /** `pieces.join(sep)`, the inverse of `split`. */
  function Join(pieces: seq<string>, sep: string): string
    requires |pieces| > 0
  {
    if |pieces| == 1 then pieces[0] else pieces[0] + sep + Join(pieces[1..], sep)
  }

  /** Joining a list with a first piece in front. */
  lemma JoinCons(head: string, tail: seq<string>, sep: string)
    requires |tail| > 0
    ensures Join([head] + tail, sep) == head + sep + Join(tail, sep)
  {
    assert ([head] + tail)[1..] == tail;
  }

  /** `s.replace(/p/g, '')` for a literal pattern `p`: the non-overlapping
      occurrences found scanning left to right are deleted. */
  function DeleteAll(s: string, p: string): string
    requires |p| > 0
    decreases |s|
  {
    if |s| < |p| then s
    else if s[..|p|] == p then DeleteAll(s[|p|..], p)
    else [s[0]] + DeleteAll(s[1..], p)
  }

  /** One more occurrence deletes `a` more characters. */
  lemma MulSucc(a: int, c: int)
    ensures a * (1 + c) == a + a * c
  {
  }

  /** Each deleted occurrence removes exactly `|p|` characters. */
  lemma {:induction false} DeleteAllLength(s: string, p: string)
    requires |p| > 0
    ensures |DeleteAll(s, p)| == |s| - |p| * CountOccurrences(s, p)
    decreases |s|
  {
    if |s| < |p| {
    } else if s[..|p|] == p {
      var rest := s[|p|..];
      var c := CountOccurrences(rest, p);
      DeleteAllLength(rest, p);
      assert |DeleteAll(s, p)| == |rest| - |p| * c;
      assert CountOccurrences(s, p) == 1 + c;
      MulSucc(|p|, c);
    } else {
      DeleteAllLength(s[1..], p);
      assert |DeleteAll(s, p)| == 1 + |DeleteAll(s[1..], p)|;
      assert CountOccurrences(s, p) == CountOccurrences(s[1..], p);
    }
  }

  /** Replacing with the empty string only deletes: the result is a sub-sequence. */
  lemma {:induction false} DeleteAllSubsequence(s: string, p: string)
    requires |p| > 0
    ensures IsSubsequence(DeleteAll(s, p), s)
    decreases |s|
  {
    if |s| < |p| {
      SubsequenceRefl(s);
    } else if s[..|p|] == p {
      DeleteAllSubsequence(s[|p|..], p);
      var t := s[|p|..];
      // drop the deleted prefix one character at a time
      var k := |p|;
      while k > 0
        invariant 0 <= k <= |p|
        invariant IsSubsequence(DeleteAll(s, p), s[k..])
      {
        assert s[k - 1..] == [s[k - 1]] + s[k..];
        SubsequenceSkip(s[k - 1], DeleteAll(s, p), s[k..]);
        k := k - 1;
      }
    } else {
      DeleteAllSubsequence(s[1..], p);
      SubsequenceCons(s[0], DeleteAll(s[1..], p), s[1..]);
      assert [s[0]] + s[1..] == s;
    }
  }

  /** A string without the pattern comes back unchanged. */
  lemma {:induction false} DeleteAllAbsent(s: string, p: string)
    requires |p| > 0 && !Contains(s, p)
    ensures DeleteAll(s, p) == s
    decreases |s|
  {
    if |s| >= |p| {
      assert !OccursAt(s, p, 0);
      assert !Contains(s[1..], p) by {
        if j :| OccursAt(s[1..], p, j) { OccursInSuffix(s, p, 1, j); }
      }
      DeleteAllAbsent(s[1..], p);
    }
  }

  /** A string that holds the pattern gets strictly shorter. */
  lemma DeleteAllShrinks(s: string, p: string)
    requires |p| > 0 && Contains(s, p)
    ensures |DeleteAll(s, p)| < |s|
  {
    DeleteAllLength(s, p);
    CountZeroIff(s, p);
  }

  /** Deleting a one-character pattern removes every copy of that character. */
  lemma {:induction false} DeleteAllChar(s: string, c: char)
    ensures c !in DeleteAll(s, [c])
    decreases |s|
  {
    if |s| >= 1 {
      if s[..1] == [c] {
        DeleteAllChar(s[1..], c);
      } else {
        DeleteAllChar(s[1..], c);
        assert s[0] != c by { assert s[..1] == [s[0]]; }
      }
    }
  }

  /** When the string does not start with the pattern's first character, the
      first character is kept. */
  lemma DeleteAllKeepsHead(s: string, p: string)
    requires |p| > 0 && |s| > 0 && s[0] != p[0]
    ensures DeleteAll(s, p) == [s[0]] + DeleteAll(s[1..], p)
  {
    if |s| < |p| {
      assert s == [s[0]] + s[1..];
      DeleteAllAbsent(s[1..], p);
    } else {
      assert s[..|p|][0] == s[0];
    }
  }

  /** No two adjacent characters of `r` are both `c`. */
  predicate NoAdjacentPair(r: string, c: char) {
    forall j :: 0 <= j < |r| - 1 ==> !(r[j] == c && r[j + 1] == c)
  }

  lemma NoAdjacentPairIsAbsence(r: string, c: char)
    requires NoAdjacentPair(r, c)
    ensures !Contains(r, [c, c])
  {
    forall j | 0 <= j <= |r| ensures !OccursAt(r, [c, c], j) {
      if j + 2 <= |r| {
        assert r[j..j + 2] == [r[j], r[j + 1]];
      }
    }
  }

  /** Deleting a doubled character `cc` leaves no two adjacent copies of it:
      scanning left to right, a kept `c` is never followed by another `c`. */
  lemma {:induction false} DeleteAllPair(s: string, c: char)
    ensures NoAdjacentPair(DeleteAll(s, [c, c]), c)
    ensures !Contains(DeleteAll(s, [c, c]), [c, c])
    decreases |s|
  {
    var p := [c, c];
    var r := DeleteAll(s, p);
    if |s| < 2 {
    } else if s[..2] == p {
      DeleteAllPair(s[2..], c);
    } else {
      DeleteAllPair(s[1..], c);
      var tail := DeleteAll(s[1..], p);
      assert r == [s[0]] + tail;
      if s[0] == c {
        // the scan did not match at 0, so s[1] is not c, and it is kept next
        assert s[1] != c by { assert s[..2] == [s[0], s[1]]; }
        DeleteAllKeepsHead(s[1..], p);
      }
      forall j | 0 <= j < |r| - 1 ensures !(r[j] == c && r[j + 1] == c) {
        if j > 0 {
          assert r[j] == tail[j - 1] && r[j + 1] == tail[j];
        }
      }
    }
    NoAdjacentPairIsAbsence(r, c);
  }
}

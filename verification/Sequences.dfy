/** Splitting and joining of sequences, shared by the parsers and by the patch tool. */
module Sequences {

  lemma AppendNothing<T>(s: seq<T>)
    ensures s + [] == s
  {
  }

  lemma DropLast<T>(s: seq<T>, x: T)
    ensures (s + [x])[..|s + [x]| - 1] == s
  {
  }

  lemma SplitHead<T>(s: seq<T>)
    requires s != []
    ensures s == [s[0]] + s[1..]
  {
  }

  lemma SplitLast<T>(s: seq<T>)
    requires s != []
    ensures s == s[..|s| - 1] + [s[|s| - 1]]
  {
  }

  lemma ConcatAssociative<T>(a: seq<T>, b: seq<T>, c: seq<T>)
    ensures (a + b) + c == a + (b + c)
  {
  }

  lemma SplitAt<T>(s: seq<T>, n: nat)
    requires n <= |s|
    ensures s == s[..n] + s[n..]
  {
  }

  lemma TakeOneMore<T>(s: seq<T>, k: nat)
    requires k < |s|
    ensures s[..k + 1] == s[..k] + [s[k]]
  {
  }

  lemma PrefixTransitive<T>(a: seq<T>, b: seq<T>, c: seq<T>)
    requires a <= b <= c
    ensures a <= c
  {
  }

  lemma DropPrefix<T>(a: seq<T>, b: seq<T>)
    ensures a <= a + b && (a + b)[|a|..] == b
  {
  }

  lemma InCons<T>(head: T, tail: seq<T>, x: T)
    ensures x in [head] + tail <==> x == head || x in tail
  {
  }

  /** sep.join(parts) */
  function Join<T>(parts: seq<seq<T>>, sep: seq<T>): seq<T> {
    if parts == [] then []
    else if |parts| == 1 then parts[0]
    else parts[0] + sep + Join(parts[1..], sep)
  }

  /** Every part followed by the terminator `end`. */
  function Terminated<T>(parts: seq<seq<T>>, end: T): seq<T> {
    if parts == [] then [] else parts[0] + [end] + Terminated(parts[1..], end)
  }

  /** s.split(sep) for a separator of one element. */
  function Split<T(==)>(s: seq<T>, sep: T): (parts: seq<seq<T>>)
    ensures parts != []
  {
    var i := IndexOf(s, sep);
    if i == |s| then [s] else [s[..i]] + Split(s[i + 1..], sep)
  }

  /** Position of the first `x`, or the length when there is none. */
  function IndexOf<T(==)>(s: seq<T>, x: T): (i: nat)
    ensures i <= |s|
    ensures i < |s| ==> s[i] == x
    ensures x !in s[..i]
  {
    if s == [] then 0
    else if s[0] == x then 0
    else
      assert s == [s[0]] + s[1..];
      1 + IndexOf(s[1..], x)
  }

  lemma IndexOfAfter<T>(head: seq<T>, x: T, tail: seq<T>)
    requires x !in head
    ensures IndexOf(head + [x] + tail, x) == |head|
  {
    var s := head + [x] + tail;
    assert s[|head|] == x && s[..|head|] == head;
    assert forall k :: 0 <= k < |head| ==> s[k] == head[k];
  }

  lemma SplitFirst<T>(head: seq<T>, x: T, tail: seq<T>)
    requires x !in head
    ensures Split(head + [x] + tail, x) == [head] + Split(tail, x)
  {
    var s := head + [x] + tail;
    IndexOfAfter(head, x, tail);
    assert s[..|head|] == head && s[|head| + 1..] == tail;
  }

  /** No part holds the separator, and the parts hold nothing but elements of the whole. */
  lemma {:induction false} SplitAvoids<T>(s: seq<T>, sep: T)
    ensures forall k :: 0 <= k < |Split(s, sep)| ==> sep !in Split(s, sep)[k]
    ensures forall k :: 0 <= k < |Split(s, sep)| ==> forall x :: x in Split(s, sep)[k] ==> x in s
    decreases |s|
  {
    var i := IndexOf(s, sep);
    if i < |s| { SplitAvoids(s[i + 1..], sep); }
  }

  /** The part stands at `i`, between separators or the ends of the whole. */
  predicate PartAt<T(==)>(s: seq<T>, sep: T, part: seq<T>, i: nat) {
    && i + |part| <= |s| && s[i..i + |part|] == part && sep !in part
    && (i == 0 || s[i - 1] == sep) && (i + |part| == |s| || s[i + |part|] == sep)
  }

  /** The first separator stands at `n`, if there is one. */
  predicate FirstAt<T(==)>(s: seq<T>, sep: T, n: nat) {
    n <= |s| && sep !in s[..n] && (n < |s| ==> s[n] == sep)
  }

  ghost predicate HasPart<T>(s: seq<T>, sep: T, part: seq<T>) {
    exists i: nat :: PartAt(s, sep, part, i)
  }

  /** Splitting gives exactly what stands between separators. */
  lemma {:induction false} SplitParts<T>(s: seq<T>, sep: T, part: seq<T>)
    ensures part in Split(s, sep) <==> HasPart(s, sep, part)
    decreases |s|
  {
    var n := IndexOf(s, sep);
    PartsOf(s, sep, part, n);
    if n < |s| {
      SplitParts(s[n + 1..], sep, part);
      InCons(s[..n], Split(s[n + 1..], sep), part);
    } else {
      assert s[..n] == s;
    }
  }

  /** A part is the first one, or a part of what stands behind the first separator. */
  lemma PartsOf<T>(s: seq<T>, sep: T, part: seq<T>, n: nat)
    requires n == IndexOf(s, sep)
    ensures HasPart(s, sep, part) <==> part == s[..n] || (n < |s| && HasPart(s[n + 1..], sep, part))
  {
    if HasPart(s, sep, part) { PartFound(s, sep, part, n); }
    if part == s[..n] { FirstKept(s, sep, n); }
    if n < |s| && HasPart(s[n + 1..], sep, part) { PartKept(s, sep, part, n); }
  }

  lemma PartFound<T>(s: seq<T>, sep: T, part: seq<T>, n: nat)
    requires FirstAt(s, sep, n) && HasPart(s, sep, part)
    ensures part == s[..n] || (n < |s| && HasPart(s[n + 1..], sep, part))
  {
    var i: nat :| PartAt(s, sep, part, i);
    if i <= n {
      FirstPart(s, sep, part, n, i);
    } else {
      PartBehind(s, sep, part, n, i - n - 1);
      IsPart(s[n + 1..], sep, part, i - n - 1);
    }
  }

  lemma IsPart<T>(s: seq<T>, sep: T, part: seq<T>, i: nat)
    requires PartAt(s, sep, part, i)
    ensures HasPart(s, sep, part)
  {
  }

  lemma FirstKept<T>(s: seq<T>, sep: T, n: nat)
    requires FirstAt(s, sep, n)
    ensures HasPart(s, sep, s[..n])
  {
    IsPart(s, sep, s[..n], 0);
  }

  lemma PartKept<T>(s: seq<T>, sep: T, part: seq<T>, n: nat)
    requires n < |s| && s[n] == sep && HasPart(s[n + 1..], sep, part)
    ensures HasPart(s, sep, part)
  {
    var rest := s[n + 1..];
    var i: nat :| PartAt(rest, sep, part, i);
    PartBehind(s, sep, part, n, i);
    IsPart(s, sep, part, n + 1 + i);
  }

  lemma PartBehind<T>(s: seq<T>, sep: T, part: seq<T>, n: nat, i: nat)
    requires n < |s| && s[n] == sep
    ensures PartAt(s[n + 1..], sep, part, i) <==> PartAt(s, sep, part, n + 1 + i)
  {
    var rest := s[n + 1..];
    if i + |part| <= |rest| {
      assert rest[i..i + |part|] == s[n + 1 + i..n + 1 + i + |part|];
    }
  }

  lemma FirstPart<T>(s: seq<T>, sep: T, part: seq<T>, n: nat, i: nat)
    requires i <= n && FirstAt(s, sep, n) && PartAt(s, sep, part, i)
    ensures part == s[..n]
  {
    assert forall k :: 0 <= k < n ==> s[..n][k] == s[k] != sep;
    assert forall k :: 0 <= k < |part| ==> part[k] == s[i + k] != sep;
  }

  /** Splitting undoes terminating, up to the empty part after the last terminator. */
  lemma {:induction false} SplitTerminated<T>(parts: seq<seq<T>>, end: T)
    requires forall k :: 0 <= k < |parts| ==> end !in parts[k]
    ensures Split(Terminated(parts, end), end) == parts + [[]]
  {
    if parts != [] {
      var tail := Terminated(parts[1..], end);
      SplitTerminated(parts[1..], end);
      SplitFirst(parts[0], end, tail);
      SplitHead(parts);
      ConcatAssociative([parts[0]], parts[1..], [[]]);
    }
  }

  /** Splitting undoes joining when the separator occurs in no part. */
  lemma {:induction false} SplitJoin<T>(parts: seq<seq<T>>, sep: T)
    requires parts != []
    requires forall k :: 0 <= k < |parts| ==> sep !in parts[k]
    ensures Split(Join(parts, [sep]), sep) == parts
  {
    if |parts| > 1 {
      var tail := Join(parts[1..], [sep]);
      SplitJoin(parts[1..], sep);
      SplitFirst(parts[0], sep, tail);
      SplitHead(parts);
    } else {
      assert parts == [parts[0]];
    }
  }

  function TotalLength<T>(parts: seq<seq<T>>): nat {
    if parts == [] then 0 else |parts[0]| + TotalLength(parts[1..])
  }

  lemma {:induction false} JoinLength<T>(parts: seq<seq<T>>, sep: seq<T>)
    requires parts != []
    ensures |Join(parts, sep)| == TotalLength(parts) + (|parts| - 1) * |sep|
  {
    if |parts| > 1 {
      JoinLength(parts[1..], sep);
      assert (|parts| - 1) * |sep| == |sep| + (|parts| - 2) * |sep|;
    }
  }

  lemma JoinDifference<T>(parts: seq<seq<T>>, a: seq<T>, b: seq<T>)
    requires parts != []
    ensures |Join(parts, b)| == |Join(parts, a)| + (|parts| - 1) * (|b| - |a|)
  {
    JoinLength(parts, a);
    JoinLength(parts, b);
    assert (|parts| - 1) * (|b| - |a|) == (|parts| - 1) * |b| - (|parts| - 1) * |a|;
  }

  lemma JoinCons<T>(head: seq<T>, parts: seq<seq<T>>, sep: seq<T>)
    requires parts != []
    ensures Join([head] + parts, sep) == head + sep + Join(parts, sep)
  {
    assert ([head] + parts)[1..] == parts;
  }

  /** What is put before the first part is put before the whole. */
  lemma JoinPrepend<T>(extra: seq<T>, parts: seq<seq<T>>, sep: seq<T>)
    requires parts != []
    ensures Join([extra + parts[0]] + parts[1..], sep) == extra + Join(parts, sep)
  {
    assert parts == [parts[0]] + parts[1..];
    if |parts| > 1 {
      JoinCons(extra + parts[0], parts[1..], sep);
    }
  }

  predicate Occurs<T(==)>(text: seq<T>, pat: seq<T>, i: nat) {
    i + |pat| <= |text| && text[i..i + |pat|] == pat
  }

  /** Position of the leftmost occurrence of `pat` at or after `from`, or |text| + 1. */
  function Find<T(==)>(text: seq<T>, pat: seq<T>, from: nat): (i: nat)
    requires from <= |text|
    ensures from <= i
    ensures i <= |text| ==> Occurs(text, pat, i)
    ensures i <= |text| || i == |text| + 1
    ensures forall j {:trigger Occurs(text, pat, j)} :: from <= j < i ==> !Occurs(text, pat, j)
    decreases |text| - from
  {
    if Occurs(text, pat, from) then from
    else if from == |text| then |text| + 1
    else Find(text, pat, from + 1)
  }

  /** sub in text */
  predicate Contains<T(==)>(text: seq<T>, pat: seq<T>) {
    Find(text, pat, 0) <= |text|
  }

  lemma ContainsExactly<T>(text: seq<T>, pat: seq<T>)
    ensures Contains(text, pat) <==> exists j: nat :: Occurs(text, pat, j)
  {
  }

  lemma OccursAfter<T>(before: seq<T>, pat: seq<T>, after: seq<T>)
    ensures Occurs(before + (pat + after), pat, |before|)
  {
    assert (before + (pat + after))[|before|..|before| + |pat|] == pat;
  }

  // ----- Subsequences ----------------------------------------------------------------------------

  /** `part` is `whole` with some elements left out. */
  predicate Subsequence<T(==)>(part: seq<T>, whole: seq<T>) {
    if whole == [] then part == []
    else
      var init, last := whole[..|whole| - 1], whole[|whole| - 1];
      (part != [] && part[|part| - 1] == last && Subsequence(part[..|part| - 1], init)) || Subsequence(part, init)
  }

  lemma {:induction false} SubsequenceSelf<T>(s: seq<T>)
    ensures Subsequence(s, s)
  {
    if s != [] { SubsequenceSelf(s[..|s| - 1]); }
  }

  lemma {:induction false} SubsequenceLength<T>(part: seq<T>, whole: seq<T>)
    requires Subsequence(part, whole)
    ensures |part| <= |whole| && (|part| == |whole| ==> part == whole)
  {
    if whole != [] {
      var init := whole[..|whole| - 1];
      if part != [] && part[|part| - 1] == whole[|whole| - 1] && Subsequence(part[..|part| - 1], init) {
        SubsequenceLength(part[..|part| - 1], init);
        SplitLast(part);
        SplitLast(whole);
      } else {
        SubsequenceLength(part, init);
      }
    }
  }

  lemma {:induction false} SubsequenceConcat<T>(a: seq<T>, b: seq<T>, c: seq<T>, d: seq<T>)
    requires Subsequence(a, b) && Subsequence(c, d)
    ensures Subsequence(a + c, b + d)
    decreases |d|
  {
    if d == [] {
      AppendNothing(a);
      AppendNothing(b);
    } else {
      var init, last := d[..|d| - 1], d[|d| - 1];
      SplitLast(d);
      ConcatAssociative(b, init, [last]);
      DropLast(b + init, last);
      if c != [] && c[|c| - 1] == last && Subsequence(c[..|c| - 1], init) {
        SubsequenceConcat(a, b, c[..|c| - 1], init);
        SplitLast(c);
        ConcatAssociative(a, c[..|c| - 1], [last]);
        DropLast(a + c[..|c| - 1], last);
      } else {
        SubsequenceConcat(a, b, c, init);
      }
    }
  }

  lemma {:induction false} SubsequenceOf<T>(a: seq<T>, b: seq<T>, c: seq<T>)
    requires Subsequence(a, b) && Subsequence(b, c)
    ensures Subsequence(a, c)
    decreases |c|
  {
    if c != [] {
      var init, last := c[..|c| - 1], c[|c| - 1];
      if b != [] && b[|b| - 1] == last && Subsequence(b[..|b| - 1], init) {
        if a != [] && a[|a| - 1] == last && Subsequence(a[..|a| - 1], b[..|b| - 1]) {
          SubsequenceOf(a[..|a| - 1], b[..|b| - 1], init);
        } else {
          SubsequenceOf(a, b[..|b| - 1], init);
        }
      } else {
        SubsequenceOf(a, b, init);
      }
    }
  }
}

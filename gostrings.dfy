/**
 The parts of Go's `strings` and `sort` packages the SQS signer relies on:
 Go's `<=` on strings (byte-wise lexicographic order), a slice sorted by it
 (`sort.StringSlice(s).Sort()`, an in-place sort of a slice) and
 `strings.Join`.
 */
module GoStrings {

  /** Go's `a <= b` on strings: lexicographic, a proper prefix comes first. */
  predicate Leq(a: string, b: string)
    ensures a <= b ==> Leq(a, b)
    ensures Leq(a, b) && |a| > 0 ==> |b| > 0 && a[0] <= b[0]
  {
    |a| == 0 || (|b| > 0 && (a[0] < b[0] || (a[0] == b[0] && Leq(a[1..], b[1..]))))
  }

  lemma {:induction false} LeqReflexive(a: string)
    ensures Leq(a, a)
  {
    if |a| > 0 {
      LeqReflexive(a[1..]);
    }
  }

  lemma {:induction false} LeqAntisymmetric(a: string, b: string)
    requires Leq(a, b) && Leq(b, a)
    ensures a == b
  {
    if |a| > 0 && |b| > 0 {
      LeqAntisymmetric(a[1..], b[1..]);
      assert a == [a[0]] + a[1..] && b == [b[0]] + b[1..];
    }
  }

  lemma {:induction false} LeqTransitive(a: string, b: string, c: string)
    requires Leq(a, b) && Leq(b, c)
    ensures Leq(a, c)
  {
    if |a| > 0 && a[0] == b[0] && b[0] == c[0] {
      LeqTransitive(a[1..], b[1..], c[1..]);
    }
  }

  lemma {:induction false} LeqTotal(a: string, b: string)
    ensures Leq(a, b) || Leq(b, a)
  {
    if |a| > 0 && |b| > 0 && a[0] == b[0] {
      LeqTotal(a[1..], b[1..]);
    }
  }

  /** What `sort.StringSlice.Sort` establishes: ascending by Go's string order. */
  ghost predicate Sorted(s: seq<string>)
  {
    forall i, j :: 0 <= i < j < |s| ==> Leq(s[i], s[j])
  }

  lemma SortedTail(s: seq<string>)
    requires Sorted(s) && |s| > 0
    ensures Sorted(s[1..])
  {
    forall i, j | 0 <= i < j < |s| - 1 ensures Leq(s[1..][i], s[1..][j]) {
      assert s[1..][i] == s[i + 1] && s[1..][j] == s[j + 1];
    }
  }

  /** The first element of a sorted non-empty sequence is `<=` every element. */
  lemma SortedHeadLeast(s: seq<string>, x: string)
    requires Sorted(s) && x in s
    ensures Leq(s[0], x)
  {
    var i :| 0 <= i < |s| && s[i] == x;
    if i == 0 { LeqReflexive(x); }
  }

  /**
   A sorted arrangement of a multiset of strings is unique: two sorted
   sequences with the same elements are equal. This is why the order in which
   the elements were produced cannot show through a sort.
   */
  lemma {:induction false} SortedUnique(a: seq<string>, b: seq<string>)
    requires Sorted(a) && Sorted(b) && multiset(a) == multiset(b)
    ensures a == b
  {
    if |a| == 0 {
      assert |multiset(b)| == 0;
    } else {
      assert |b| == |multiset(b)| == |multiset(a)| == |a|;
      assert a[0] in multiset(b) && b[0] in multiset(a);
      SortedHeadLeast(a, b[0]);
      SortedHeadLeast(b, a[0]);
      LeqAntisymmetric(a[0], b[0]);
      assert a == [a[0]] + a[1..] && b == [b[0]] + b[1..];
      assert multiset(a[1..]) == multiset(a) - multiset{a[0]};
      assert multiset(b[1..]) == multiset(b) - multiset{b[0]};
      SortedTail(a);
      SortedTail(b);
      SortedUnique(a[1..], b[1..]);
    }
  }

  /** Places `x` before the first element it is `<=`. */
  function Insert(x: string, s: seq<string>): (r: seq<string>)
    requires Sorted(s)
    ensures multiset(r) == multiset{x} + multiset(s)
    ensures Sorted(r)
  {
    if s == [] then [x]
    else if Leq(x, s[0]) then
      assert forall j :: 0 < j < |s| ==> Leq(x, s[j]) by {
        forall j | 0 < j < |s| ensures Leq(x, s[j]) { LeqTransitive(x, s[0], s[j]); }
      }
      [x] + s
    else
      LeqTotal(x, s[0]);
      var t := Insert(x, s[1..]);
      assert s == [s[0]] + s[1..];
      assert forall e :: e in multiset(t) ==> Leq(s[0], e);
      assert forall j :: 0 <= j < |t| ==> Leq(s[0], t[j]) by {
        forall j | 0 <= j < |t| ensures Leq(s[0], t[j]) { assert t[j] in multiset(t); }
      }
      [s[0]] + t
  }

  /** The reference sort: insertion sort as a function on sequences. */
  function Sort(s: seq<string>): (r: seq<string>)
    ensures Sorted(r)
    ensures multiset(r) == multiset(s)
  {
    if s == [] then [] else
      assert s == [s[0]] + s[1..];
      Insert(s[0], Sort(s[1..]))
  }

  /** Any sorted permutation of `s` is the reference sort of `s`. */
  lemma SortIsUnique(s: seq<string>, t: seq<string>)
    requires Sorted(t) && multiset(t) == multiset(s)
    ensures t == Sort(s)
  {
    SortedUnique(t, Sort(s));
  }

  /** The total length of the strings in `s`. */
  function TotalLength(s: seq<string>): nat
  {
    if |s| == 0 then 0 else |s[0]| + TotalLength(s[1..])
  }

  /**
   `strings.Join(s, sep)`: the elements in order with one `sep` between
   neighbours, so its length is theirs plus one separator per gap.
   */
  function Join(s: seq<string>, sep: string): (r: string)
    ensures |s| > 0 ==> |r| == TotalLength(s) + (|s| - 1) * |sep|
    ensures |s| == 0 ==> r == ""
    ensures |s| > 0 ==> r[..|s[0]|] == s[0]
  {
    if |s| == 0 then ""
    else if |s| == 1 then s[0]
    else
      var r := s[0] + sep + Join(s[1..], sep);
      assert r[..|s[0]|] == s[0];
      r
  }

  /** The index of the first `c` in `s`, or `|s|` when there is none. */
  function FirstIndex(s: string, c: char): (n: nat)
    ensures n <= |s|
    ensures forall i :: 0 <= i < n ==> s[i] != c
    ensures n < |s| ==> s[n] == c
  {
    if |s| == 0 || s[0] == c then 0 else 1 + FirstIndex(s[1..], c)
  }

  lemma {:induction false} FirstIndexOfJoin(x: string, c: char, y: string)
    requires c !in x
    ensures FirstIndex(x + [c] + y, c) == |x|
  {
    if |x| > 0 {
      assert (x + [c] + y)[1..] == x[1..] + [c] + y;
      FirstIndexOfJoin(x[1..], c, y);
    }
  }

  /** `x + c + y` cut at its first `c`, when `x` has none, gives back `x` and `y`. */
  lemma Cut(x: string, c: char, y: string)
    requires c !in x
    ensures var p := x + [c] + y; var i := FirstIndex(p, c); i < |p| && p[..i] == x && p[i + 1..] == y
  {
    FirstIndexOfJoin(x, c, y);
    var p := x + [c] + y;
    assert p[..|x|] == x;
    assert p[|x| + 1..] == y;
  }

  /** `strings.Split(s, [c])`: the pieces between the occurrences of `c`. */
  function SplitAll(s: string, c: char): (r: seq<string>)
    ensures |r| >= 1
    decreases |s|
  {
    var i := FirstIndex(s, c);
    if i == |s| then [s] else [s[..i]] + SplitAll(s[i + 1..], c)
  }

  lemma NoSeparator(s: string, c: char)
    requires c !in s
    ensures FirstIndex(s, c) == |s| && SplitAll(s, c) == [s]
  {
  }

  /**
   Splitting undoes `strings.Join` when no element contains the one-character
   separator: the joined string lists exactly the elements, in order.
   */
  lemma {:induction false} SplitJoin(xs: seq<string>, c: char)
    requires |xs| > 0 && forall x :: x in xs ==> c !in x
    ensures SplitAll(Join(xs, [c]), c) == xs
    decreases |xs|
  {
    if |xs| == 1 {
      NoSeparator(xs[0], c);
    } else {
      var rest := Join(xs[1..], [c]);
      assert Join(xs, [c]) == xs[0] + [c] + rest;
      assert xs[0] in xs;
      SplitStep(xs[0], c, rest);
      assert forall x :: x in xs[1..] ==> x in xs;
      SplitJoin(xs[1..], c);
      assert xs == [xs[0]] + xs[1..];
    }
  }

  lemma SplitStep(x: string, c: char, rest: string)
    requires c !in x
    ensures SplitAll(x + [c] + rest, c) == [x] + SplitAll(rest, c)
  {
    Cut(x, c, rest);
  }

  /** Exchanges two slice elements, as `StringSlice.Swap` does. */
  method Swap(a: array<string>, i: int, j: int)
    requires 0 <= i < a.Length && 0 <= j < a.Length
    modifies a
    ensures a[..] == old(a[..])[i := old(a[j])][j := old(a[i])]
    ensures multiset(a[..]) == multiset(old(a[..]))
  {
    a[i], a[j] := a[j], a[i];
  }

  /**
   `sort.StringSlice(a).Sort()`: sorts the slice in place. This model sorts
   by insertion; Go's algorithm differs, but by `SortIsUnique` every correct
   sort leaves the same contents, the reference sort of the old ones.
   */
  method SortStrings(a: array<string>)
    modifies a
    ensures Sorted(a[..])
    ensures multiset(a[..]) == multiset(old(a[..]))
    ensures a[..] == Sort(old(a[..]))
  {
    var i := 0;
    while i < a.Length
      invariant 0 <= i <= a.Length
      invariant Sorted(a[..i])
      invariant multiset(a[..]) == multiset(old(a[..]))
    {
      var j := i;
      while j > 0 && !Leq(a[j - 1], a[j])
        invariant 0 <= j <= i
        invariant multiset(a[..]) == multiset(old(a[..]))
        invariant forall p, q :: 0 <= p < q <= i && p != j && q != j ==> Leq(a[p], a[q])
        invariant forall q :: j < q <= i ==> Leq(a[j], a[q])
      {
        LeqTotal(a[j - 1], a[j]);
        Swap(a, j - 1, j);
        j := j - 1;
      }
      forall p, q | 0 <= p < q <= i
        ensures Leq(a[p], a[q])
      {
        if q == j && p < j - 1 {
          LeqTransitive(a[p], a[j - 1], a[j]);
        }
      }
      i := i + 1;
    }
    assert a[..a.Length] == a[..];
    SortIsUnique(old(a[..]), a[..]);
  }
}

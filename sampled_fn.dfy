/** A 1-dimensional sampled function: sample points (x, y) kept sorted by their
    x-axis value, and the lookup of the sampling interval that holds a query x.

    The scalar type of the samples is modelled by `real`, whose order is total,
    so every two x-axis values are comparable. */
module SampledFunction {

  /** An optional value, as Rust's `Option`. */
  datatype Option<T> = None | Some(value: T)

  /** One sample point: its x-axis value `arg` and the function value `value`. */
  datatype Coordinate = Coordinate(arg: real, value: real)

  function Min(a: nat, b: nat): nat { if a <= b then a else b }

  // ---------------------------------------------------------------------------
  // Zipping the two parallel vectors into coordinates, and back
  // ---------------------------------------------------------------------------

  /** Pairs `args[i]` with `values[i]`, stopping at the end of the shorter input
      (as `Iterator::zip` does): the longer input is silently truncated. */
  function Zip(args: seq<real>, values: seq<real>): (r: seq<Coordinate>)
    ensures |r| == Min(|args|, |values|)
    ensures forall i :: 0 <= i < |r| ==> r[i] == Coordinate(args[i], values[i])
  {
    if |args| == 0 || |values| == 0 then []
    else [Coordinate(args[0], values[0])] + Zip(args[1..], values[1..])
  }

  /** The x-axis values of a sequence of coordinates (first half of `unzip`). */
  function ArgsOf(c: seq<Coordinate>): (r: seq<real>)
    ensures |r| == |c|
    ensures forall i :: 0 <= i < |r| ==> r[i] == c[i].arg
  {
    if c == [] then [] else [c[0].arg] + ArgsOf(c[1..])
  }

  /** The function values of a sequence of coordinates (second half of `unzip`). */
  function ValuesOf(c: seq<Coordinate>): (r: seq<real>)
    ensures |r| == |c|
    ensures forall i :: 0 <= i < |r| ==> r[i] == c[i].value
  {
    if c == [] then [] else [c[0].value] + ValuesOf(c[1..])
  }

  /** Unzipping zipped vectors gives back both inputs, cut to the shorter length. */
  lemma UnzipZip(args: seq<real>, values: seq<real>)
    ensures ArgsOf(Zip(args, values)) == args[..Min(|args|, |values|)]
    ensures ValuesOf(Zip(args, values)) == values[..Min(|args|, |values|)]
  {
  }

  /** Zipping the two halves of an unzipped sequence gives it back unchanged. */
  lemma ZipUnzip(c: seq<Coordinate>)
    ensures Zip(ArgsOf(c), ValuesOf(c)) == c
  {
  }

  // ---------------------------------------------------------------------------
  // Sorting coordinates by their x-axis value
  // ---------------------------------------------------------------------------

  predicate Sorted(s: seq<real>) {
    forall i, j :: 0 <= i < j < |s| ==> s[i] <= s[j]
  }

  predicate SortedByArg(c: seq<Coordinate>) {
    forall i, j :: 0 <= i < j < |c| ==> c[i].arg <= c[j].arg
  }

  /** Inserts `x` into `c` behind every trailing coordinate whose arg is not
      greater than `x.arg`; coordinates with an equal arg stay in front of `x`. */
  function Insert(c: seq<Coordinate>, x: Coordinate): (r: seq<Coordinate>)
    ensures |r| == |c| + 1
    decreases |c|
  {
    if c == [] then [x]
    else if c[|c| - 1].arg <= x.arg then c + [x]
    else Insert(c[..|c| - 1], x) + [c[|c| - 1]]
  }

  /** Stable sort of coordinates by arg: each coordinate in turn is inserted
      into the sorted prefix before it. */
  function SortByArg(c: seq<Coordinate>): (r: seq<Coordinate>)
    ensures |r| == |c|
    decreases |c|
  {
    if c == [] then []
    else Insert(SortByArg(c[..|c| - 1]), c[|c| - 1])
  }

  /** Coordinates already sorted by arg are left as they are. */
  lemma {:induction false} SortByArgOfSorted(c: seq<Coordinate>)
    requires SortedByArg(c)
    ensures SortByArg(c) == c
    decreases |c|
  {
    if c != [] {
      var init := c[..|c| - 1];
      assert SortedByArg(init);
      SortByArgOfSorted(init);
      assert c == init + [c[|c| - 1]];
    }
  }

  lemma MultisetRemove<T>(d: seq<T>, k: nat)
    requires k < |d|
    ensures multiset(d[..k] + d[k + 1..]) == multiset(d) - multiset{d[k]}
  {
    assert d == d[..k] + [d[k]] + d[k + 1..];
  }

  lemma MultisetLast<T>(d: seq<T>)
    requires d != []
    ensures multiset(d) == multiset(d[..|d| - 1]) + multiset{d[|d| - 1]}
  {
    assert d == d[..|d| - 1] + [d[|d| - 1]];
  }

  /** Inserting adds exactly `x` to the coordinates. */
  lemma {:induction false} InsertPermutation(c: seq<Coordinate>, x: Coordinate)
    ensures multiset(Insert(c, x)) == multiset(c) + multiset{x}
    decreases |c|
  {
    if c != [] && c[|c| - 1].arg > x.arg {
      InsertPermutation(c[..|c| - 1], x);
      MultisetLast(c);
    }
  }

  /** The sorted coordinates are the input coordinates, rearranged: every
      value stays attached to its own arg. */
  lemma {:induction false} SortByArgPermutation(c: seq<Coordinate>)
    ensures multiset(SortByArg(c)) == multiset(c)
    decreases |c|
  {
    if c != [] {
      SortByArgPermutation(c[..|c| - 1]);
      InsertPermutation(SortByArg(c[..|c| - 1]), c[|c| - 1]);
      MultisetLast(c);
    }
  }

  lemma {:induction false} InsertSorted(c: seq<Coordinate>, x: Coordinate)
    requires SortedByArg(c)
    ensures SortedByArg(Insert(c, x))
    decreases |c|
  {
    if c != [] && c[|c| - 1].arg > x.arg {
      var init, last := c[..|c| - 1], c[|c| - 1];
      InsertSorted(init, x);
      InsertPermutation(init, x);
      var r := Insert(init, x);
      forall i | 0 <= i < |r|
        ensures r[i].arg <= last.arg
      {
        assert r[i] in multiset(r);
        if r[i] != x {
          assert r[i] in init;
        }
      }
    }
  }

  /** The sorted coordinates are in non-decreasing order of arg. */
  lemma {:induction false} SortByArgSorted(c: seq<Coordinate>)
    ensures SortedByArg(SortByArg(c))
    decreases |c|
  {
    if c != [] {
      SortByArgSorted(c[..|c| - 1]);
      InsertSorted(SortByArg(c[..|c| - 1]), c[|c| - 1]);
    }
  }

  /** The subsequence of the coordinates of `c` whose arg equals `k`, in order. */
  function WithArg(c: seq<Coordinate>, k: real): seq<Coordinate>
    decreases |c|
  {
    if c == [] then []
    else WithArg(c[..|c| - 1], k) + (if c[|c| - 1].arg == k then [c[|c| - 1]] else [])
  }

  lemma {:induction false} InsertWithArg(c: seq<Coordinate>, x: Coordinate, k: real)
    ensures WithArg(Insert(c, x), k) == WithArg(c, k) + (if x.arg == k then [x] else [])
    decreases |c|
  {
    if c == [] {
      assert Insert(c, x) == [x];
      assert [x][..0] == [];
    } else if c[|c| - 1].arg <= x.arg {
      assert (c + [x])[..|c|] == c;
    } else {
      var init, last := c[..|c| - 1], c[|c| - 1];
      InsertWithArg(init, x, k);
      var r := Insert(init, x);
      assert (r + [last])[..|r|] == r;
    }
  }

  /** The sort is stable: for every x-axis value, the coordinates holding it
      appear in the same relative order as in the input. */
  lemma {:induction false} SortByArgStable(c: seq<Coordinate>, k: real)
    ensures WithArg(SortByArg(c), k) == WithArg(c, k)
    decreases |c|
  {
    if c != [] {
      SortByArgStable(c[..|c| - 1], k);
      InsertWithArg(SortByArg(c[..|c| - 1]), c[|c| - 1], k);
    }
  }

  lemma {:induction false} ArgsOfConcat(a: seq<Coordinate>, b: seq<Coordinate>)
    ensures ArgsOf(a + b) == ArgsOf(a) + ArgsOf(b)
    decreases |a|
  {
    if a == [] {
      assert a + b == b;
    } else {
      var ab := a + b;
      assert ab[1..] == a[1..] + b;
      calc {
        ArgsOf(ab);
        [ab[0].arg] + ArgsOf(ab[1..]);
        [a[0].arg] + ArgsOf(a[1..] + b);
        { ArgsOfConcat(a[1..], b); }
        [a[0].arg] + (ArgsOf(a[1..]) + ArgsOf(b));
        ([a[0].arg] + ArgsOf(a[1..])) + ArgsOf(b);
        ArgsOf(a) + ArgsOf(b);
      }
    }
  }

  lemma ArgsOfRemove(left: seq<Coordinate>, x: Coordinate, right: seq<Coordinate>)
    ensures multiset(ArgsOf(left + [x] + right)) == multiset(ArgsOf(left + right)) + multiset{x.arg}
  {
    ArgsOfAround(left, x, right);
    ArgsOfConcat(left, right);
    MultisetMiddle(ArgsOf(left), x.arg, ArgsOf(right));
  }

  lemma MultisetMiddle<T>(a: seq<T>, x: T, b: seq<T>)
    ensures multiset(a + [x] + b) == multiset(a + b) + multiset{x}
  {
  }

  lemma ArgsOfHead(c: seq<Coordinate>)
    requires c != []
    ensures multiset(ArgsOf(c)) == multiset(ArgsOf(c[1..])) + multiset{c[0].arg}
  {
    assert ArgsOf(c) == [c[0].arg] + ArgsOf(c[1..]);
  }

  lemma ArgsOfAround(left: seq<Coordinate>, x: Coordinate, right: seq<Coordinate>)
    ensures ArgsOf(left + [x] + right) == ArgsOf(left) + [x.arg] + ArgsOf(right)
  {
    ArgsOfConcat(left + [x], right);
    ArgsOfConcat(left, [x]);
    assert ArgsOf([x]) == [x.arg];
  }

  /** Splits `d` around an occurrence of the head of its rearrangement `c`. */
  lemma RemoveMatching<T>(c: seq<T>, d: seq<T>) returns (left: seq<T>, right: seq<T>)
    requires multiset(c) == multiset(d) && c != []
    ensures d == left + [c[0]] + right
    ensures multiset(c[1..]) == multiset(left + right)
  {
    assert c[0] in multiset(d);
    var k :| 0 <= k < |d| && d[k] == c[0];
    left, right := d[..k], d[k + 1..];
    MultisetRemove(d, k);
    assert c == [c[0]] + c[1..];
    assert multiset(c[1..]) == multiset(c) - multiset{c[0]};
  }

  /** Rearranging coordinates rearranges their x-axis values alike. */
  lemma {:induction false} ArgsOfPermutation(c: seq<Coordinate>, d: seq<Coordinate>)
    requires multiset(c) == multiset(d)
    ensures multiset(ArgsOf(c)) == multiset(ArgsOf(d))
    decreases |c|
  {
    if c == [] {
      assert |d| == |multiset(d)| == 0;
    } else {
      var left, right := RemoveMatching(c, d);
      ArgsOfPermutation(c[1..], left + right);
      ArgsOfHead(c);
      ArgsOfRemove(left, c[0], right);
    }
  }

  /** The first element of a sorted sequence is its least. */
  lemma SortedHeadLeast(s: seq<real>, v: real)
    requires Sorted(s) && v in s
    ensures s[0] <= v
  {
    var i :| 0 <= i < |s| && s[i] == v;
    assert i == 0 || s[0] <= s[i];
  }

  lemma SortedHeadsEqual(s: seq<real>, t: seq<real>)
    requires Sorted(s) && Sorted(t)
    requires multiset(s) == multiset(t)
    requires s != [] && t != []
    ensures s[0] == t[0]
  {
    assert s[0] in multiset(t) && t[0] in multiset(s);
    SortedHeadLeast(t, s[0]);
    SortedHeadLeast(s, t[0]);
  }

  lemma TailsPermutation(s: seq<real>, t: seq<real>)
    requires s != [] && t != [] && s[0] == t[0]
    requires multiset(s) == multiset(t)
    ensures multiset(s[1..]) == multiset(t[1..])
  {
    assert s == [s[0]] + s[1..];
    assert t == [t[0]] + t[1..];
    assert multiset(s[1..]) == multiset(s) - multiset{s[0]};
  }

  /** Two sorted sequences holding the same values are equal. */
  lemma {:induction false} SortedPermutationUnique(s: seq<real>, t: seq<real>)
    requires Sorted(s) && Sorted(t)
    requires multiset(s) == multiset(t)
    ensures s == t
    decreases |s|
  {
    assert |t| == |multiset(t)| == |multiset(s)| == |s|;
    if s != [] {
      SortedHeadsEqual(s, t);
      TailsPermutation(s, t);
      SortedPermutationUnique(s[1..], t[1..]);
      assert s == [s[0]] + s[1..] && t == [t[0]] + t[1..];
    }
  }

  /** Sorting two arrangements of the same coordinates gives the same x-axis
      values; only the order of values sharing one x-axis value may differ. */
  lemma SortByArgArgsUnique(c: seq<Coordinate>, d: seq<Coordinate>)
    requires multiset(c) == multiset(d)
    ensures ArgsOf(SortByArg(c)) == ArgsOf(SortByArg(d))
  {
    SortByArgSorted(c);
    SortByArgSorted(d);
    SortByArgPermutation(c);
    SortByArgPermutation(d);
    ArgsOfPermutation(SortByArg(c), SortByArg(d));
    SortedPermutationUnique(ArgsOf(SortByArg(c)), ArgsOf(SortByArg(d)));
  }

  lemma SortedByArgArgs(c: seq<Coordinate>)
    requires SortedByArg(c)
    ensures Sorted(ArgsOf(c))
  {
  }

  /** Two arrangements of the same coordinates, both sorted by arg, end in the same arg. */
  lemma SortedLastArgsEqual(t: seq<Coordinate>, u: seq<Coordinate>)
    requires SortedByArg(t) && SortedByArg(u)
    requires multiset(t) == multiset(u)
    requires t != []
    ensures |t| == |u| && t[|t| - 1].arg == u[|u| - 1].arg
  {
    assert |t| == |multiset(t)| == |multiset(u)| == |u|;
    ArgsOfPermutation(t, u);
    SortedByArgArgs(t);
    SortedByArgArgs(u);
    SortedPermutationUnique(ArgsOf(t), ArgsOf(u));
    assert ArgsOf(t)[|t| - 1] == ArgsOf(u)[|u| - 1];
  }

  /** Dropping the last coordinate drops it from the subsequence of its arg only. */
  lemma WithArgDropLast(t: seq<Coordinate>, k: real)
    requires t != []
    ensures t[|t| - 1].arg == k ==>
      WithArg(t, k) != [] && WithArg(t, k)[|WithArg(t, k)| - 1] == t[|t| - 1] &&
      WithArg(t[..|t| - 1], k) == WithArg(t, k)[..|WithArg(t, k)| - 1]
    ensures t[|t| - 1].arg != k ==> WithArg(t[..|t| - 1], k) == WithArg(t, k)
  {
  }

  /** Sorted arrangements of the same coordinates that agree on the subsequence
      of their common last arg end in the same coordinate. */
  lemma SortedLastEqual(t: seq<Coordinate>, u: seq<Coordinate>)
    requires SortedByArg(t) && SortedByArg(u)
    requires multiset(t) == multiset(u)
    requires t != []
    requires WithArg(t, t[|t| - 1].arg) == WithArg(u, t[|t| - 1].arg)
    ensures |t| == |u| && t[|t| - 1] == u[|u| - 1]
    ensures multiset(t[..|t| - 1]) == multiset(u[..|u| - 1])
  {
    SortedLastArgsEqual(t, u);
    WithArgDropLast(t, t[|t| - 1].arg);
    WithArgDropLast(u, t[|t| - 1].arg);
    DropSameLast(t, u);
  }

  lemma DropSameLast<T>(t: seq<T>, u: seq<T>)
    requires multiset(t) == multiset(u)
    requires t != [] && u != [] && t[|t| - 1] == u[|u| - 1]
    ensures multiset(t[..|t| - 1]) == multiset(u[..|u| - 1])
  {
    MultisetLast(t);
    MultisetLast(u);
    assert multiset(t[..|t| - 1]) == multiset(t) - multiset{t[|t| - 1]};
  }

  /** Removing one same last coordinate keeps the subsequences of every arg equal. */
  lemma WithArgDropLastBoth(t: seq<Coordinate>, u: seq<Coordinate>, t': seq<Coordinate>, u': seq<Coordinate>)
    requires t != [] && u != [] && t[|t| - 1] == u[|u| - 1]
    requires t' == t[..|t| - 1] && u' == u[..|u| - 1]
    requires forall k :: WithArg(t, k) == WithArg(u, k)
    ensures forall k :: WithArg(t', k) == WithArg(u', k)
  {
    forall k
      ensures WithArg(t', k) == WithArg(u', k)
    {
      WithArgDropLast(t, k);
      WithArgDropLast(u, k);
    }
  }

  /** Two arrangements of the same coordinates that are both sorted by arg and
      agree on the order of the coordinates sharing each arg are equal. */
  lemma {:induction false} StableSortUnique(t: seq<Coordinate>, u: seq<Coordinate>)
    requires SortedByArg(t) && SortedByArg(u)
    requires multiset(t) == multiset(u)
    requires forall k :: WithArg(t, k) == WithArg(u, k)
    ensures t == u
    decreases |t|
  {
    if t == [] {
      assert |u| == |multiset(u)| == 0;
    } else {
      var n := |t|;
      assert WithArg(t, t[n - 1].arg) == WithArg(u, t[n - 1].arg);
      SortedLastEqual(t, u);
      WithArgDropLastBoth(t, u, t[..n - 1], u[..n - 1]);
      StableSortUnique(t[..n - 1], u[..n - 1]);
      assert t == t[..n - 1] + [t[n - 1]] && u == u[..n - 1] + [u[n - 1]];
    }
  }

  /** Every stable sort by arg gives exactly `SortByArg`: a rearrangement of the
      input, sorted by arg, that keeps the coordinates sharing an arg in their
      input order. */
  lemma StableSortIsSortByArg(c: seq<Coordinate>, t: seq<Coordinate>)
    requires multiset(t) == multiset(c)
    requires SortedByArg(t)
    requires forall k :: WithArg(t, k) == WithArg(c, k)
    ensures t == SortByArg(c)
  {
    SortByArgSorted(c);
    SortByArgPermutation(c);
    forall k
      ensures WithArg(t, k) == WithArg(SortByArg(c), k)
    {
      SortByArgStable(c, k);
    }
    StableSortUnique(t, SortByArg(c));
  }

  /** Swapping `x` with the element on its left moves it one place left. */
  lemma SwapLeft(sorted: seq<Coordinate>, x: Coordinate, rest: seq<Coordinate>, j: nat)
    requires 0 < j <= |sorted|
    ensures (sorted[..j] + [x] + sorted[j..] + rest)[j - 1 := x][j := sorted[j - 1]]
         == sorted[..j - 1] + [x] + sorted[j - 1..] + rest
  {
  }

  /** Passing over a coordinate whose arg exceeds `x.arg` moves it behind `x`. */
  lemma InsertShift(sorted: seq<Coordinate>, x: Coordinate, j: nat)
    requires 0 < j <= |sorted| && sorted[j - 1].arg > x.arg
    ensures Insert(sorted[..j], x) + sorted[j..] == Insert(sorted[..j - 1], x) + sorted[j - 1..]
  {
    assert sorted[..j][..j - 1] == sorted[..j - 1];
    assert sorted[j - 1..] == [sorted[j - 1]] + sorted[j..];
  }

  /** Insertion stops at the front or behind a coordinate whose arg is not greater. */
  lemma InsertStop(sorted: seq<Coordinate>, x: Coordinate, j: nat)
    requires j <= |sorted| && (j == 0 || sorted[j - 1].arg <= x.arg)
    ensures Insert(sorted[..j], x) == sorted[..j] + [x]
  {
  }

  /** Moves `a[i]` left past every coordinate of the prefix `a[..i]` whose arg
      exceeds its own, by swapping it with its left neighbour. */
  method InsertInPlace(a: array<Coordinate>, i: nat)
    requires i < a.Length
    modifies a
    ensures a[..] == Insert(old(a[..i]), old(a[i])) + old(a[i + 1..])
  {
    ghost var sorted, rest := a[..i], a[i + 1..];
    var x := a[i];
    var j := i;
    assert a[..] == sorted[..j] + [x] + sorted[j..] + rest;
    assert sorted[..j] == sorted && sorted[j..] == [];
    while j > 0 && a[j - 1].arg > x.arg
      invariant 0 <= j <= i
      invariant a[..] == sorted[..j] + [x] + sorted[j..] + rest
      invariant Insert(sorted, x) == Insert(sorted[..j], x) + sorted[j..]
    {
      ghost var before := a[..];
      InsertShift(sorted, x, j);
      SwapLeft(sorted, x, rest, j);
      a[j - 1], a[j] := x, a[j - 1];
      assert a[..] == before[j - 1 := x][j := sorted[j - 1]];
      j := j - 1;
    }
    InsertStop(sorted, x, j);
  }

  /** One step of insertion sort on `done + input[i..]`, where `done` sorts `input[..i]`. */
  lemma PrefixStep(current: seq<Coordinate>, done: seq<Coordinate>, input: seq<Coordinate>, i: nat)
    requires i < |input|
    requires done == SortByArg(input[..i]) && current == done + input[i..]
    ensures current[..i] == done && current[i] == input[i] && current[i + 1..] == input[i + 1..]
    ensures SortByArg(input[..i + 1]) == Insert(done, input[i])
  {
    assert input[..i + 1][..i] == input[..i];
  }

  /** Sorts the array of coordinates in place by arg, by insertion. */
  method SortByArgInPlace(a: array<Coordinate>)
    modifies a
    ensures a[..] == SortByArg(old(a[..]))
  {
    ghost var input := a[..];
    var i := 0;
    while i < a.Length
      invariant 0 <= i <= a.Length
      invariant a[..] == SortByArg(input[..i]) + input[i..]
    {
      PrefixStep(a[..], SortByArg(input[..i]), input, i);
      InsertInPlace(a, i);
      i := i + 1;
    }
    assert input == input[..a.Length];
  }

  // ---------------------------------------------------------------------------
  // Locating the first element that satisfies a predicate
  // ---------------------------------------------------------------------------

  /** The index of the first element of `s` satisfying `p`, as `Iterator::position`. */
  function Position<T>(s: seq<T>, p: T -> bool): (r: Option<nat>)
    ensures r.Some? ==> r.value < |s| && p(s[r.value])
    ensures r.Some? ==> forall j :: 0 <= j < r.value ==> !p(s[j])
    ensures r.None? ==> forall j :: 0 <= j < |s| ==> !p(s[j])
  {
    if s == [] then None
    else if p(s[0]) then Some(0)
    else match Position(s[1..], p)
      case None => None
      case Some(i) => Some(i + 1)
  }

  // ---------------------------------------------------------------------------
  // The sampled function
  // ---------------------------------------------------------------------------

  /** A sampled function: `args` are the x-axis values, `values` the function
      values, parallel vectors kept sorted by x-axis value. */
  class SampledFn {
    var args: seq<real>
    var values: seq<real>

    ghost predicate Valid()
      reads this
    {
      |args| == |values| && Sorted(args)
    }

    /** The sample points, as (x, y) pairs. */
    ghost function Coordinates(): seq<Coordinate>
      reads this
    {
      Zip(args, values)
    }

    /** Builds the sampled function from x-axis values and function values,
        which it pairs up and sorts by x-axis value. */
    constructor (args: seq<real>, values: seq<real>)
      ensures Valid()
      ensures Coordinates() == SortByArg(Zip(args, values))
      ensures this.args == ArgsOf(SortByArg(Zip(args, values)))
      ensures this.values == ValuesOf(SortByArg(Zip(args, values)))
      ensures |this.args| == |this.values| == Min(|args|, |values|)
      ensures multiset(Coordinates()) == multiset(Zip(args, values))
      ensures forall k :: WithArg(Coordinates(), k) == WithArg(Zip(args, values), k)
    {
      this.args, this.values := args, values;
      new;
      SortAccordingToArgs();
      SortByArgPermutation(Zip(args, values));
      forall k
        ensures WithArg(Coordinates(), k) == WithArg(Zip(args, values), k)
      {
        SortByArgStable(Zip(args, values), k);
      }
    }

    /** Replaces `args` and `values` by the coordinates they form, sorted by
        x-axis value: a pair that does not find a partner is dropped. */
    method SortAccordingToArgs()
      modifies this
      ensures Valid()
      ensures Coordinates() == SortByArg(Zip(old(args), old(values)))
      ensures args == ArgsOf(SortByArg(Zip(old(args), old(values))))
      ensures values == ValuesOf(SortByArg(Zip(old(args), old(values))))
    {
      var coordinates := Zip(args, values);
      var a := new Coordinate[|coordinates|](i requires 0 <= i < |coordinates| => coordinates[i]);
      assert a[..] == coordinates;
      SortByArgInPlace(a);
      args, values := ArgsOf(a[..]), ValuesOf(a[..]);
      SortByArgSorted(coordinates);
      ZipUnzip(a[..]);
    }

    /** The index `i` of the sampling interval [args[i], args[i + 1]) holding `x`:
        `i + 1` is the first index whose x-axis value exceeds `x`. There is none
        when no x-axis value exceeds `x`, or when the first one already does. */
    function SearchInterval(x: real): (r: Option<nat>)
      reads this
      ensures r.Some? ==> r.value + 1 < |args| && x < args[r.value + 1]
      ensures r.Some? ==> forall j :: 0 <= j <= r.value ==> args[j] <= x
      ensures r.None? <==>
        (forall j :: 0 <= j < |args| ==> args[j] <= x) || (|args| > 0 && x < args[0])
    {
      match Position(args, arg => x < arg)
      case Some(index) => if index == 0 then None else Some(index - 1)
      case None => None
    }
  }

  /** On sorted samples, the lookup answers `i` exactly when `x` lies in
      [args[i], args[i + 1]). */
  lemma SearchIntervalBrackets(f: SampledFn, x: real, i: nat)
    requires f.Valid()
    ensures f.SearchInterval(x) == Some(i) <==> i + 1 < |f.args| && f.args[i] <= x < f.args[i + 1]
  {
    if i + 1 < |f.args| && f.args[i] <= x < f.args[i + 1] {
      assert f.args[0] <= f.args[i];
      assert forall j :: 0 <= j <= i ==> f.args[j] <= x;
      var r := f.SearchInterval(x);
      assert r.Some?;
      assert r.value >= i;
      assert r.value <= i;
    }
  }

  /** On sorted samples, the lookup has no answer exactly when there are no
      samples or `x` lies left of the first one or at or right of the last one. */
  lemma SearchIntervalNone(f: SampledFn, x: real)
    requires f.Valid()
    ensures f.SearchInterval(x).None? <==>
      |f.args| == 0 || x < f.args[0] || f.args[|f.args| - 1] <= x
  {
    var n := |f.args|;
    if n > 0 && f.args[n - 1] <= x {
      assert forall j :: 0 <= j < n ==> f.args[j] <= f.args[n - 1];
    }
    if n > 0 && f.args[0] <= x < f.args[n - 1] {
      assert !(forall j :: 0 <= j < n ==> f.args[j] <= x) by {
        assert !(f.args[n - 1] <= x);
      }
    }
  }

  /** A query equal to an interior sample resolves to the interval starting at
      that sample; a query equal to the largest sample has no interval. */
  lemma SearchIntervalAtSample(f: SampledFn, i: nat)
    requires f.Valid()
    requires i < |f.args|
    ensures i + 1 < |f.args| && f.args[i] < f.args[i + 1] ==> f.SearchInterval(f.args[i]) == Some(i)
    ensures i == |f.args| - 1 ==> f.SearchInterval(f.args[i]) == None
  {
    SearchIntervalBrackets(f, f.args[i], i);
    SearchIntervalNone(f, f.args[i]);
  }

  /** Sorting the input of the constructor from the repository's tests. */
  lemma SortExample()
    ensures SortByArg(Zip([0.0, 2.0, 1.0], [0.0, 4.0, 1.0]))
         == [Coordinate(0.0, 0.0), Coordinate(1.0, 1.0), Coordinate(2.0, 4.0)]
    ensures ArgsOf(SortByArg(Zip([0.0, 2.0, 1.0], [0.0, 4.0, 1.0]))) == [0.0, 1.0, 2.0]
    ensures ValuesOf(SortByArg(Zip([0.0, 2.0, 1.0], [0.0, 4.0, 1.0]))) == [0.0, 1.0, 4.0]
  {
    var c0, c2, c1 := Coordinate(0.0, 0.0), Coordinate(2.0, 4.0), Coordinate(1.0, 1.0);
    var z := Zip([0.0, 2.0, 1.0], [0.0, 4.0, 1.0]);
    assert z == [c0, c2, c1];
    assert z[..2] == [c0, c2] && [c0, c2][..1] == [c0] && [c0][..0] == [];
    assert SortByArg([c0]) == [c0];
    assert SortByArg([c0, c2]) == [c0, c2];
    assert [c0, c2][..1] == [c0];
    assert Insert([c0], c1) == [c0, c1];
    assert Insert([c0, c2], c1) == [c0, c1, c2];
    assert ArgsOf([c0, c1, c2]) == [0.0, 1.0, 2.0];
    assert ValuesOf([c0, c1, c2]) == [0.0, 1.0, 4.0];
  }

  /** The constructor test of the repository: `new([0, 2, 1], [0, 4, 1])` has
      args [0, 1, 2] and values [0, 1, 4]; -0.75 and 2.98 lie outside it. */
  method ConstructorExample() returns (f: SampledFn)
    ensures f.args == [0.0, 1.0, 2.0] && f.values == [0.0, 1.0, 4.0]
    ensures f.SearchInterval(-0.75) == None && f.SearchInterval(2.98) == None
  {
    f := new SampledFn([0.0, 2.0, 1.0], [0.0, 4.0, 1.0]);
    SortExample();
    SearchIntervalOutsideExamples(f);
  }

  /** The queries of the repository's test that lie outside samples at 0, 1 and 2. */
  lemma SearchIntervalOutsideExamples(f: SampledFn)
    requires f.Valid() && f.args == [0.0, 1.0, 2.0]
    ensures f.SearchInterval(-0.75) == None && f.SearchInterval(2.98) == None
  {
    SearchIntervalNone(f, -0.75);
    SearchIntervalNone(f, 2.98);
  }

  /** The lookup test of the repository, on samples at 0, 1, 2 and 3. */
  lemma SearchIntervalExamples(f: SampledFn)
    requires f.Valid() && f.args == [0.0, 1.0, 2.0, 3.0]
    ensures f.SearchInterval(0.65) == Some(0)
    ensures f.SearchInterval(1.54) == Some(1)
    ensures f.SearchInterval(2.75) == Some(2)
  {
    SearchIntervalBrackets(f, 0.65, 0);
    SearchIntervalBrackets(f, 1.54, 1);
    SearchIntervalBrackets(f, 2.75, 2);
  }

  /** The lookup test of the repository end to end: `new([0, 1, 2, 3], [0, 1, 4, 9])`
      keeps its already sorted samples, and 0.65, 1.54 and 2.75 fall in the
      intervals starting at 0, 1 and 2. */
  method SearchIntervalTestExample() returns (f: SampledFn)
    ensures f.args == [0.0, 1.0, 2.0, 3.0] && f.values == [0.0, 1.0, 4.0, 9.0]
    ensures f.SearchInterval(0.65) == Some(0)
    ensures f.SearchInterval(1.54) == Some(1)
    ensures f.SearchInterval(2.75) == Some(2)
  {
    f := new SampledFn([0.0, 1.0, 2.0, 3.0], [0.0, 1.0, 4.0, 9.0]);
    SortedExample();
    SearchIntervalExamples(f);
  }

  /** Sorting the already sorted input of the repository's lookup test changes nothing. */
  lemma SortedExample()
    ensures ArgsOf(SortByArg(Zip([0.0, 1.0, 2.0, 3.0], [0.0, 1.0, 4.0, 9.0]))) == [0.0, 1.0, 2.0, 3.0]
    ensures ValuesOf(SortByArg(Zip([0.0, 1.0, 2.0, 3.0], [0.0, 1.0, 4.0, 9.0]))) == [0.0, 1.0, 4.0, 9.0]
  {
    var args, values := [0.0, 1.0, 2.0, 3.0], [0.0, 1.0, 4.0, 9.0];
    SortByArgOfSorted(Zip(args, values));
    UnzipZip(args, values);
    assert args[..4] == args && values[..4] == values;
  }
}

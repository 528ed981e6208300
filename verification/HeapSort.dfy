/** The benchmark's in-place heap sort: slots 1 to n of the array, one loop for both phases. */
module HeapSort {
  import opened Wrappers

  /** From slot `lo` on, no slot up to `hi` is smaller than its children */
  ghost predicate HeapFrom(s: seq<real>, lo: int, hi: int) {
    forall k :: 1 <= k && lo <= k <= hi < |s| ==> HeapAt(s, k, hi)
  }

  ghost predicate HeapAt(s: seq<real>, k: int, hi: int)
    requires 1 <= k <= hi < |s|
  {
    && (2 * k <= hi ==> s[k] >= s[2 * k])
    && (2 * k + 1 <= hi ==> s[k] >= s[2 * k + 1])
  }

  ghost predicate Sorted(s: seq<real>, lo: int, hi: int) {
    forall a, b :: 0 <= lo <= a < b <= hi < |s| ==> s[a] <= s[b]
  }

  ghost predicate AllBelow(s: seq<real>, hi: int, bound: real) {
    forall k :: 1 <= k <= hi < |s| ==> s[k] <= bound
  }

  /** The top of a heap is its greatest element */
  lemma {:induction false} TopIsGreatest(s: seq<real>, hi: int, k: int)
    requires 1 <= k <= hi < |s| && HeapFrom(s, 1, hi)
    ensures s[k] <= s[1]
    decreases k
  {
    if k > 1 {
      assert HeapAt(s, k / 2, hi);
      TopIsGreatest(s, hi, k / 2);
    }
  }

  lemma {:induction false} SwapIsPermutation(s: seq<real>, i: int, j: int)
    requires 0 <= i < |s| && 0 <= j < |s|
    ensures multiset(s[i := s[j]][j := s[i]]) == multiset(s)
  {
  }

  /** The heap with a hole at `i`: every slot but `i` is fine, and above the hole nothing is
      smaller than the hole's children */
  ghost predicate HeapBut(s: seq<real>, lo: int, hi: int, i: int) {
    && 1 <= lo <= i <= hi < |s|
    && (forall k :: lo <= k <= hi && k != i ==> HeapAt(s, k, hi))
    && (i / 2 >= lo ==>
          && (2 * i <= hi ==> s[i / 2] >= s[2 * i])
          && (2 * i + 1 <= hi ==> s[i / 2] >= s[2 * i + 1]))
  }

  /** Moving the greater child up moves the hole down */
  lemma {:induction false} HoleMoves(s: seq<real>, lo: int, hi: int, i: int, j: int)
    requires HeapBut(s, lo, hi, i)
    requires (j == 2 * i || j == 2 * i + 1) && j <= hi
    requires s[i] < s[j]
    requires 2 * i <= hi ==> s[2 * i] <= s[j]
    requires 2 * i + 1 <= hi ==> s[2 * i + 1] <= s[j]
    ensures HeapBut(s[i := s[j]][j := s[i]], lo, hi, j)
  {
    var t := s[i := s[j]][j := s[i]];
    assert j / 2 == i;
    assert HeapAt(s, j, hi);
    forall k | lo <= k <= hi && k != j ensures HeapAt(t, k, hi) {
      if k != i {
        assert HeapAt(s, k, hi);
      }
      if 2 * k == i || 2 * k + 1 == i {
        assert k == i / 2;
      }
    }
  }

  /** A hole whose value is no smaller than its greater child is filled */
  lemma {:induction false} HoleFits(s: seq<real>, lo: int, hi: int, i: int, j: int)
    requires HeapBut(s, lo, hi, i) && 0 <= j
    requires j <= hi ==>
      && s[i] >= s[j]
      && (2 * i <= hi ==> s[2 * i] <= s[j])
      && (2 * i + 1 <= hi ==> s[2 * i + 1] <= s[j])
    requires 2 * i <= j && (j > hi ==> j == 2 * i)
    ensures HeapFrom(s, lo, hi)
  {
  }

  /** The greater child of slot `i`, where `j` is the left one */
  method GreaterChild(ra: array<real>, i: int, j: int, ir: int) returns (c: int)
    requires 1 <= i && j == 2 * i <= ir < ra.Length
    ensures (c == j || c == j + 1) && c <= ir
    ensures ra[j] <= ra[c] && (j + 1 <= ir ==> ra[j + 1] <= ra[c])
  {
    c := j;
    if c < ir && ra[c] < ra[c + 1] {
      c := c + 1;
    }
  }

  /** `s` is the array with `rra` in its hole `i`, a heap but for the hole */
  ghost predicate Sinking(ra: seq<real>, s: seq<real>, rra: real, l: int, ir: int, i: int, bound: real) {
    && 1 <= l <= i <= ir < |ra|
    && s == ra[i := rra]
    && HeapBut(s, l, ir, i)
    && AllBelow(s, ir, bound)
  }

  /** The inner loop: lets `rra` sink from slot `l`.  `bound` is any bound on slots 1 to `ir`. */
  method Sift(ra: array<real>, l: int, ir: int, rra: real, ghost bound: real)
    requires 1 <= l <= ir < ra.Length
    requires HeapFrom(ra[..], l + 1, ir)
    requires AllBelow(ra[..][l := rra], ir, bound)
    modifies ra
    ensures HeapFrom(ra[..], l, ir) && AllBelow(ra[..], ir, bound)
    ensures multiset(ra[..]) == multiset(old(ra[..])[l := rra])
    ensures forall k :: 0 <= k < ra.Length && !(1 <= k <= ir) ==> ra[k] == old(ra[k])
  {
    var i, j := l, 2 * l;
    ghost var s := ra[..][l := rra];
    ghost var s0 := s;
    HoleAtTop(ra[..], l, ir, rra);
    while j <= ir
      invariant Sinking(ra[..], s, rra, l, ir, i, bound)
      invariant multiset(s) == multiset(s0)
      invariant 0 <= j && (j == 2 * i || (j > ir && HeapFrom(s, l, ir)))
      invariant forall k :: 0 <= k < ra.Length && !(1 <= k <= ir) ==> ra[k] == old(ra[k])
      decreases ir + 1 - j
    {
      i, j, s := SiftOnce(ra, s, rra, l, ir, i, j, bound);
    }
    if j == 2 * i {
      HoleFits(s, l, ir, i, j);
    }
    ra[i] := rra;
    assert ra[..] == s;
  }

  /** The body of the inner loop: `j` ends past `ir` when the hole is where `rra` belongs */
  method SiftOnce(ra: array<real>, ghost s: seq<real>, rra: real, ghost l: int, ir: int, i: int, j: int,
                  ghost bound: real)
      returns (i': int, j': int, ghost t: seq<real>)
    requires Sinking(ra[..], s, rra, l, ir, i, bound) && j == 2 * i <= ir
    modifies ra
    ensures Sinking(ra[..], t, rra, l, ir, i', bound) && multiset(t) == multiset(s)
    ensures j' > j && (j' == 2 * i' || (j' > ir && HeapFrom(t, l, ir)))
    ensures forall k :: 0 <= k < ra.Length && !(1 <= k <= ir) ==> ra[k] == old(ra[k])
  {
    i', t := i, s;
    j' := GreaterChild(ra, i, j, ir);
    if rra < ra[j'] {
      t := SinkOnce(ra, s, rra, l, ir, i, j', bound);
      i' := j';
      j' := j' + i';
    } else {
      HoleFits(s, l, ir, i, j');
      j' := ir + 1;
    }
  }

  lemma {:induction false} HoleAtTop(ra: seq<real>, l: int, ir: int, rra: real)
    requires 1 <= l <= ir < |ra| && HeapFrom(ra, l + 1, ir)
    ensures HeapBut(ra[l := rra], l, ir, l)
  {
    var s := ra[l := rra];
    forall k | l <= k <= ir && k != l ensures HeapAt(s, k, ir) {
      assert HeapAt(ra, k, ir);
    }
  }

  /** The greater child moves up into the hole */
  method SinkOnce(ra: array<real>, ghost s: seq<real>, ghost rra: real, ghost l: int, ghost ir: int, i: int, j: int,
                  ghost bound: real)
      returns (ghost t: seq<real>)
    requires Sinking(ra[..], s, rra, l, ir, i, bound)
    requires (j == 2 * i || j == 2 * i + 1) && j <= ir && rra < ra[j]
    requires 2 * i <= ir ==> ra[2 * i] <= ra[j]
    requires 2 * i + 1 <= ir ==> ra[2 * i + 1] <= ra[j]
    modifies ra
    ensures ra[..] == old(ra[..])[i := old(ra[j])]
    ensures Sinking(ra[..], t, rra, l, ir, j, bound) && multiset(t) == multiset(s)
  {
    t := Sink(s, l, ir, i, j, bound);
    ra[i] := ra[j];
  }

  lemma {:induction false} Sink(s: seq<real>, lo: int, hi: int, i: int, j: int, bound: real) returns (t: seq<real>)
    requires HeapBut(s, lo, hi, i) && AllBelow(s, hi, bound)
    requires (j == 2 * i || j == 2 * i + 1) && j <= hi
    requires s[i] < s[j]
    requires 2 * i <= hi ==> s[2 * i] <= s[j]
    requires 2 * i + 1 <= hi ==> s[2 * i + 1] <= s[j]
    ensures t == s[i := s[j]][j := s[i]]
    ensures HeapBut(t, lo, hi, j) && AllBelow(t, hi, bound) && multiset(t) == multiset(s)
  {
    HoleMoves(s, lo, hi, i, j);
    SwapIsPermutation(s, i, j);
    SwapBelow(s, hi, bound, i, j);
    t := s[i := s[j]][j := s[i]];
  }

  lemma {:induction false} SwapBelow(s: seq<real>, hi: int, bound: real, i: int, j: int)
    requires 1 <= i <= hi < |s| && 1 <= j <= hi && AllBelow(s, hi, bound)
    ensures AllBelow(s[i := s[j]][j := s[i]], hi, bound)
  {
  }

  /** The second phase takes the greatest element off the heap: it goes to the slot behind the
      heap, whose old element is to sink from the top */
  lemma {:induction false} TakeTop(s: seq<real>, ir: int, n: int)
    requires 2 <= ir <= n < |s| && HeapFrom(s, 1, ir) && Sorted(s, ir + 1, n)
    requires ir < n ==> AllBelow(s, ir, s[ir + 1])
    ensures
      var t := s[ir := s[1]];
      && multiset(t[1 := s[ir]]) == multiset(s)
      && HeapFrom(t, 2, ir - 1)
      && Sorted(t, ir, n)
      && AllBelow(t[1 := s[ir]], ir - 1, t[ir])
      && (ir == 2 ==> Sorted(t[1 := s[ir]], 1, n))
  {
    var t, hi := s[ir := s[1]], ir - 1;
    SwapIsPermutation(s, ir, 1);
    forall k | 2 <= k <= hi ensures HeapAt(t, k, hi) {
      assert HeapAt(s, k, ir);
    }
    forall k | 1 <= k <= ir ensures s[k] <= s[1] {
      TopIsGreatest(s, ir, k);
    }
    assert forall b :: ir < b <= n ==> s[ir + 1] <= s[b];
  }

  lemma {:induction false} SortedSame(a: seq<real>, b: seq<real>, lo: int, hi: int)
    requires 0 <= lo <= hi < |a| == |b| && Sorted(a, lo, hi)
    requires forall k :: lo <= k <= hi ==> a[k] == b[k]
    ensures Sorted(b, lo, hi)
  {
  }

  /** The state at the head of the outer loop */
  ghost predicate Working(s: seq<real>, l: int, ir: int, n: int) {
    && 1 <= l && 2 <= ir <= n < |s| && (l > 1 ==> ir == n)
    && HeapFrom(s, l, ir)
    && Sorted(s, ir + 1, n)
    && (ir < n ==> AllBelow(s, ir, s[ir + 1]))
  }

  /** `t` is a permutation of `s` that moves nothing outside slots 1 to n */
  ghost predicate Permuted(s: seq<real>, t: seq<real>, n: int) {
    && multiset(s) == multiset(t) && |s| == |t|
    && forall k :: 0 <= k < |s| && !(1 <= k <= n) ==> s[k] == t[k]
  }

  /** The first phase: one more slot joins the heap */
  method Grow(ra: array<real>, l: int, n: int)
    requires l <= n && Working(ra[..], l + 1, n, n) && 1 <= l
    modifies ra
    ensures Working(ra[..], l, n, n) && Permuted(old(ra[..]), ra[..], n)
  {
    assert ra[..][l := ra[l]] == ra[..];
    ghost var bound := Bound(ra[..], n);
    Sift(ra, l, n, ra[l], bound);
  }

  /** The second phase: the greatest element leaves the heap of `ir` slots */
  method Shrink(ra: array<real>, ir: int, n: int)
    requires Working(ra[..], 1, ir, n)
    modifies ra
    ensures if ir == 2 then Sorted(ra[..], 1, n) else Working(ra[..], 1, ir - 1, n)
    ensures Permuted(old(ra[..]), ra[..], n)
  {
    ghost var s := ra[..];
    TakeTop(s, ir, n);
    var rra := ra[ir];
    ra[ir] := ra[1];
    ghost var t := s[ir := s[1]];
    ghost var u := t[1 := rra];
    assert ra[..] == t && multiset(u) == multiset(s);
    if ir - 1 == 1 {
      ra[1] := rra;
      assert ra[..] == u;
    } else {
      SiftFromTop(ra, ir - 1, n, rra);
    }
  }

  method SiftFromTop(ra: array<real>, ir: int, n: int, rra: real)
    requires 2 <= ir < n < ra.Length
    requires HeapFrom(ra[..], 2, ir) && Sorted(ra[..], ir + 1, n)
    requires AllBelow(ra[..][1 := rra], ir, ra[ir + 1])
    modifies ra
    ensures Working(ra[..], 1, ir, n)
    ensures multiset(ra[..]) == multiset(old(ra[..])[1 := rra])
    ensures forall k :: 0 <= k < ra.Length && !(1 <= k <= ir) ==> ra[k] == old(ra[k])
  {
    ghost var t := ra[..];
    Sift(ra, 1, ir, rra, t[ir + 1]);
    SortedSame(t, ra[..], ir + 1, n);
  }

  // ---------- When the outer loop ends ----------

  /** One round of the outer loop, as far as it decides about the next; None where it returns */
  function Round(l: int, ir: int): Option<(int, int)> {
    if l > 1 then Some((l - 1, ir))
    else if ir - 1 == 1 then None
    else Some((l, ir - 1))
  }

  /** The state after `k` rounds; None once the loop has returned */
  function Rounds(l: int, ir: int, k: nat): Option<(int, int)>
    decreases k
  {
    if k == 0 then Some((l, ir))
    else
      match Round(l, ir)
      case None => None
      case Some(next) => Rounds(next.0, next.1, k - 1)
  }

  /** The state after `k` rounds of a call */
  function StateAfter(n: int, k: nat): Option<(int, int)> {
    Rounds(n / 2 + 1, n, k)
  }

  ghost predicate Returns(n: int) {
    exists k: nat :: StateAfter(n, k).None?
  }

  /** Below 2 the last slot is stepped over: it goes down for ever */
  lemma {:induction false} NeverReturns(l: int, ir: int, k: nat)
    requires l <= 1 && ir <= 1
    ensures Rounds(l, ir, k) == Some((l, ir - k))
    decreases k
  {
    if k > 0 {
      NeverReturns(l, ir - 1, k - 1);
    }
  }

  lemma {:induction false} ReturnsAfter(l: int, ir: int) returns (k: nat)
    requires l >= 1 && ir >= 2
    ensures Rounds(l, ir, k).None?
    decreases l + ir
  {
    if Round(l, ir).None? {
      k := 1;
    } else {
      var next := Round(l, ir).value;
      k := ReturnsAfter(next.0, next.1);
      k := k + 1;
    }
  }

  /** The loop returns exactly for n >= 2, whatever the array holds */
  lemma {:induction false} ReturnsExactly(n: int)
    ensures Returns(n) <==> n >= 2
  {
    if n >= 2 {
      var k := ReturnsAfter(n / 2 + 1, n);
      assert StateAfter(n, k).None?;
    } else {
      forall k: nat ensures StateAfter(n, k).Some? {
        NeverReturns(n / 2 + 1, n, k);
      }
    }
  }

  // ---------- The sort ----------

  ghost predicate Ascending(s: seq<real>) {
    forall a, b :: 0 <= a < b < |s| ==> s[a] <= s[b]
  }

  lemma {:induction false} FirstIsLeast(s: seq<real>, x: real)
    requires Ascending(s) && x in s
    ensures s[0] <= x
  {
  }

  lemma {:induction false} Tail(s: seq<real>)
    requires s != [] && Ascending(s)
    ensures multiset(s[1..]) == multiset(s) - multiset{s[0]} && s[0] in multiset(s)
    ensures Ascending(s[1..])
  {
    assert s == [s[0]] + s[1..];
  }

  lemma {:induction false} SameFirst(s: seq<real>, t: seq<real>)
    requires multiset(s) == multiset(t) && Ascending(s) && Ascending(t) && s != []
    ensures t != [] && s[0] == t[0]
  {
    assert s[0] in multiset(t);
    assert t[0] in multiset(s);
    FirstIsLeast(s, t[0]);
    FirstIsLeast(t, s[0]);
  }

  /** What a sort leaves is determined by what was there */
  lemma {:induction false} SortedUnique(s: seq<real>, t: seq<real>)
    requires multiset(s) == multiset(t) && Ascending(s) && Ascending(t)
    ensures s == t
    decreases |s|
  {
    if s == [] {
      assert |multiset(t)| == 0;
    } else {
      SameFirst(s, t);
      Tail(s);
      Tail(t);
      SortedUnique(s[1..], t[1..]);
      assert s == [s[0]] + s[1..] && t == [t[0]] + t[1..];
    }
  }

  /** Such a permutation permutes slots 1 to n */
  lemma {:induction false} MiddlePermuted(s: seq<real>, t: seq<real>, n: int)
    requires 1 <= n < |s| && Permuted(s, t, n)
    ensures multiset(s[1..n + 1]) == multiset(t[1..n + 1])
  {
    Middle(s, n);
    Middle(t, n);
    assert s[n + 1..] == t[n + 1..];
  }

  lemma {:induction false} Middle(s: seq<real>, n: int)
    requires 1 <= n < |s|
    ensures multiset(s[1..n + 1]) == multiset(s) - multiset{s[0]} - multiset(s[n + 1..])
  {
    assert s == [s[0]] + s[1..n + 1] + s[n + 1..];
    assert multiset(s) == multiset{s[0]} + multiset(s[1..n + 1]) + multiset(s[n + 1..]);
  }

  /** heapsort_r: `l` counts down while the heap is built, `ir` while it is taken apart */
  method HeapsortR(n: int, ra: array<real>) returns (ghost rounds: nat)
    requires 2 <= n < ra.Length
    modifies ra
    ensures Sorted(ra[..], 1, n) && Permuted(old(ra[..]), ra[..], n)
    ensures multiset(ra[1..n + 1]) == multiset(old(ra[1..n + 1]))
    ensures StateAfter(n, rounds).Some? && StateAfter(n, rounds + 1).None?
  {
    ghost var s := ra[..];
    rounds := SortSlots(n, ra);
    MiddlePermuted(s, ra[..], n);
    assert s[1..n + 1] == old(ra[1..n + 1]) && ra[..][1..n + 1] == ra[1..n + 1];
  }

  method SortSlots(n: int, ra: array<real>) returns (ghost rounds: nat)
    requires 2 <= n < ra.Length
    modifies ra
    ensures Sorted(ra[..], 1, n) && Permuted(old(ra[..]), ra[..], n)
    ensures StateAfter(n, rounds).Some? && StateAfter(n, rounds + 1).None?
  {
    ghost var s := ra[..];
    var l, ir, done := n / 2 + 1, n, false;
    rounds := 0;
    while true
      invariant l <= n / 2 + 1 && Working(ra[..], l, ir, n)
      invariant Permuted(s, ra[..], n)
      invariant StateAfter(n, rounds) == Some((l, ir))
      decreases l + ir
    {
      NextRound(n / 2 + 1, n, rounds);
      l, ir, done := OneRound(ra, l, ir, n, s);
      if done {
        return;
      }
      rounds := rounds + 1;
    }
  }

  /** The body of the outer loop */
  method OneRound(ra: array<real>, l: int, ir: int, n: int, ghost s: seq<real>)
      returns (l': int, ir': int, done: bool)
    requires Working(ra[..], l, ir, n) && l <= n / 2 + 1 && Permuted(s, ra[..], n)
    modifies ra
    ensures Permuted(s, ra[..], n)
    ensures if done then Round(l, ir) == None && Sorted(ra[..], 1, n)
            else Round(l, ir) == Some((l', ir')) && Working(ra[..], l', ir', n) && l' <= n / 2 + 1
  {
    ghost var t := ra[..];
    l', ir', done := l, ir, false;
    if l > 1 {
      l' := l - 1;
      Grow(ra, l', n);
    } else {
      Shrink(ra, ir, n);
      ir' := ir - 1;
      done := ir' == 1;
    }
    PermutedTwice(s, t, ra[..], n);
  }

  lemma {:induction false} PermutedTwice(s: seq<real>, t: seq<real>, u: seq<real>, n: int)
    requires Permuted(s, t, n) && Permuted(t, u, n)
    ensures Permuted(s, u, n)
  {
  }

  lemma {:induction false} NextRound(l: int, ir: int, k: nat)
    requires Rounds(l, ir, k).Some?
    ensures
      var now := Rounds(l, ir, k).value;
      Rounds(l, ir, k + 1) == Round(now.0, now.1)
    decreases k
  {
    if k > 0 {
      var next := Round(l, ir).value;
      NextRound(next.0, next.1, k - 1);
    }
  }

  lemma {:induction false} Bound(s: seq<real>, hi: int) returns (bound: real)
    requires 0 <= hi < |s|
    ensures AllBelow(s, hi, bound)
  {
    bound := s[0];
    var k := 0;
    while k <= hi
      invariant 0 <= k <= hi + 1
      invariant forall m :: 1 <= m < k ==> s[m] <= bound
    {
      if s[k] > bound {
        bound := s[k];
      }
      k := k + 1;
    }
  }
}

/**
 * The insertion planner of the merge-insertion sort: the Jacobsthal terms
 * 1, 3, 5, 11, 21, 43, ... and the order in which the pend elements
 * 1 .. size-1 are inserted into the main chain (pend[0] is placed first by
 * the sort itself, so it never appears in the order).
 */
module Jacobsthal {

  // ---------------------------------------------------------------------
  // The recurrence and its closed form
  // ---------------------------------------------------------------------

  /** The k-th term produced by the generator: 1, 3, then each term is the
      previous one plus twice the one before it. */
  function Jac(k: nat): nat
  {
    if k == 0 then 1 else if k == 1 then 3 else Jac(k - 1) + 2 * Jac(k - 2)
  }

  function Pow2(k: nat): nat
  {
    if k == 0 then 1 else 2 * Pow2(k - 1)
  }

  /** (-1)^(k+1): -1 for even k, 1 for odd k. */
  function Sign(k: nat): (r: int)
    ensures r == if k % 2 == 0 then -1 else 1
  {
    if k == 0 then -1 else -Sign(k - 1)
  }

  /** Independent characterisation of the terms: 3 * Jac(k) == 2^(k+2) -/+ 1,
      i.e. Jac(k) is the (k+2)-th Jacobsthal number. */
  lemma {:induction false} JacClosedForm(k: nat)
    ensures 3 * Jac(k) == Pow2(k + 2) + Sign(k)
  {
    if k >= 2 {
      JacClosedForm(k - 1);
      JacClosedForm(k - 2);
      assert Sign(k) == Sign(k - 2);
      assert Pow2(k + 2) == 2 * Pow2(k + 1) == 4 * Pow2(k);
    }
  }

  lemma {:induction false} JacAtLeast(k: nat)
    ensures Jac(k) >= k + 1
  {
    if k >= 2 {
      JacAtLeast(k - 1);
      JacAtLeast(k - 2);
    }
  }

  /** The terms are strictly increasing. */
  lemma {:induction false} JacIncreasing(i: nat, j: nat)
    requires i < j
    ensures Jac(i) < Jac(j)
    decreases j - i
  {
    if j == i + 1 {
      if j >= 2 {
        JacAtLeast(j - 2);
      }
    } else {
      JacIncreasing(i, j - 1);
      JacIncreasing(j - 1, j);
    }
  }

  // ---------------------------------------------------------------------
  // generateJacobsthal
  // ---------------------------------------------------------------------

  /** The first k >= from whose term is >= n. */
  function CountFrom(n: int, from: nat): (k: nat)
    requires from >= 2
    decreases n - from
  {
    if Jac(from) >= n then from
    else
      JacAtLeast(from);
      CountFrom(n, from + 1)
  }

  /** Number of terms the generator emits for n. */
  function TermCount(n: int): nat
  {
    if n <= 0 then 0 else if n == 1 then 1 else CountFrom(n, 2)
  }

  /** What generateJacobsthal(n) returns, as a value: its terms are the
      Jacobsthal numbers from the third on, 3 * J = 2^(i+2) -/+ 1. */
  function Jacobsthal(n: int): (js: seq<int>)
    ensures forall i :: 0 <= i < |js| ==> 3 * js[i] == Pow2(i + 2) + Sign(i)
  {
    var js := seq(TermCount(n), i requires 0 <= i => Jac(i));
    assert forall i :: 0 <= i < |js| ==> 3 * js[i] == Pow2(i + 2) + Sign(i) by {
      forall i | 0 <= i < |js| {
        JacClosedForm(i);
      }
    }
    js
  }

  lemma {:induction false} CountFromFacts(n: int, from: nat)
    requires from >= 2
    ensures CountFrom(n, from) >= from
    ensures Jac(CountFrom(n, from)) >= n
    ensures forall i :: from <= i < CountFrom(n, from) ==> Jac(i) < n
    decreases n - from
  {
    if Jac(from) < n {
      JacAtLeast(from);
      CountFromFacts(n, from + 1);
    }
  }

  /** The shape of the generated terms: [] for n <= 0, [1] for n == 1, and
      for n >= 2 the terms 1, 3, 5, 11, ... where every term after the first
      two is below n, and generation stops at the first term >= n (so 3 is
      emitted even when n == 2). */
  lemma {:induction false} JacobsthalShape(n: int)
    ensures n <= 0 ==> Jacobsthal(n) == []
    ensures n == 1 ==> Jacobsthal(n) == [1]
    ensures n >= 2 ==> |Jacobsthal(n)| >= 2 && Jacobsthal(n)[0] == 1 && Jacobsthal(n)[1] == 3
    ensures n >= 2 ==> forall i :: 2 <= i < |Jacobsthal(n)| ==>
                         Jacobsthal(n)[i] == Jacobsthal(n)[i - 1] + 2 * Jacobsthal(n)[i - 2]
                         && Jacobsthal(n)[i] < n
    ensures n >= 2 ==> Jac(|Jacobsthal(n)|) >= n
  {
    if n >= 2 {
      CountFromFacts(n, 2);
    }
  }

  /** The int arithmetic of generateJacobsthal cannot overflow while n is at
      most 1431655765: every term it computes, including the first term >= n
      that ends the loop, is at most 1431655765. For a larger n the loop
      goes on to 2863311531, which is above 2147483647. */
  lemma {:induction false} JacobsthalFitsInt(n: int)
    requires 2 <= n <= 1431655765
    ensures forall i :: 0 <= i <= |Jacobsthal(n)| ==> Jac(i) <= 1431655765
  {
    var k := Pow2Thirty();
    JacAroundIntMax(k);
    TermsUpTo(n, k);
  }

  /** While n is at most the term k, the loop computes no term above it. */
  lemma {:induction false} TermsUpTo(n: int, k: nat)
    requires 2 <= k && 2 <= n <= Jac(k)
    ensures forall i :: 0 <= i <= |Jacobsthal(n)| ==> Jac(i) <= Jac(k)
  {
    CountFromFacts(n, 2);
    var count := |Jacobsthal(n)|;
    assert count <= k;
    forall i | 0 <= i <= count
      ensures Jac(i) <= Jac(k)
    {
      if i < k {
        JacIncreasing(i, k);
      }
    }
  }

  lemma {:induction false} Pow2Add(a: nat, b: nat)
    ensures Pow2(a + b) == Pow2(a) * Pow2(b)
    decreases b
  {
    if b > 0 {
      Pow2Add(a, b - 1);
    }
  }

  /** The terms at k = 30 and k + 1 = 31, on either side of the int limit
      2147483647 (k is given by its power of two). */
  lemma {:induction false} JacAroundIntMax(k: nat)
    requires k % 2 == 0 && Pow2(k) == 1073741824
    ensures Jac(k) == 1431655765 && Jac(k + 1) == 2863311531
  {
    JacClosedForm(k);
    JacClosedForm(k + 1);
    assert Pow2(k + 2) == 4 * Pow2(k);
    assert Pow2(k + 3) == 8 * Pow2(k);
  }

  lemma Pow2Thirty() returns (k: nat)
    ensures k >= 2 && k % 2 == 0 && Pow2(k) == 1073741824
  {
    k := 30;
    assert Pow2(2) == 4;
    Pow2Add(2, 2);
    Pow2Add(4, 4);
    Pow2Add(8, 8);
    Pow2Add(16, 8);
    Pow2Add(24, 4);
    Pow2Add(28, 2);
  }

  /** For n >= 2 the generated terms are strictly increasing. */
  lemma {:induction false} JacobsthalIncreasing(n: int, i: nat, j: nat)
    requires i < j < |Jacobsthal(n)|
    ensures Jacobsthal(n)[i] < Jacobsthal(n)[j]
  {
    JacIncreasing(i, j);
  }

  /** generateJacobsthal (ex02/src/PmergeMe.cpp). */
  method GenerateJacobsthal(n: int) returns (jacob: seq<int>)
    ensures jacob == Jacobsthal(n)
  {
    jacob := [];
    if n <= 0 {
      return;
    }
    jacob := jacob + [1];
    if n == 1 {
      return;
    }
    jacob := jacob + [3];
    while true
      invariant |jacob| >= 2
      invariant forall i {:trigger jacob[i]} :: 0 <= i < |jacob| ==> jacob[i] == Jac(i)
      invariant CountFrom(n, |jacob|) == TermCount(n)
      decreases n - |jacob|
    {
      var next := jacob[|jacob| - 1] + 2 * jacob[|jacob| - 2];
      assert next == Jac(|jacob|);
      if next >= n {
        break;
      }
      JacAtLeast(|jacob|);
      jacob := jacob + [next];
    }
    assert |jacob| == TermCount(n);
  }

  // ---------------------------------------------------------------------
  // buildInsertionOrder
  // ---------------------------------------------------------------------

  /** [lo, lo+1, ..., hi-1] */
  function Asc(lo: int, hi: int): seq<int>
    decreases hi - lo
  {
    if hi <= lo then [] else [lo] + Asc(lo + 1, hi)
  }

  /** [hi, hi-1, ..., lo+1]: one block of the walk. */
  function Desc(hi: int, lo: int): seq<int>
    decreases hi - lo
  {
    if hi <= lo then [] else Desc(hi, lo + 1) + [lo + 1]
  }

  /** A term clamped to the last valid pend index. */
  function Clamp(j: int, size: int): int
  {
    if j >= size then size - 1 else j
  }

  /** lastLimit after the block walk over the terms js; it starts at 1, as
      index 0 is inserted before the walk. */
  function LastLimit(js: seq<int>, size: int): int
  {
    if js == [] then 1
    else
      var last := LastLimit(js[..|js| - 1], size);
      var up := Clamp(js[|js| - 1], size);
      if up > last then up else last
  }

  /** The indices the block walk over the terms js emits: for each term, the
      block (lastLimit, min(term, size-1)] in descending order. */
  function Blocks(js: seq<int>, size: int): seq<int>
  {
    if js == [] then []
    else Blocks(js[..|js| - 1], size) + Desc(Clamp(js[|js| - 1], size), LastLimit(js[..|js| - 1], size))
  }

  /** The safety net over 1 .. i-1: every index not in w, ascending. */
  function MissingUpTo(w: seq<int>, i: int): seq<int>
    decreases i
  {
    if i <= 1 then [] else MissingUpTo(w, i - 1) + (if i - 1 in w then [] else [i - 1])
  }

  /** The safety net only adds indices in 1 .. i-1 that the walk missed. */
  lemma {:induction false} MissingUpToBounds(w: seq<int>, i: int)
    ensures forall x :: x in MissingUpTo(w, i) ==> 1 <= x < i && x !in w
    decreases i
  {
    if i > 1 {
      MissingUpToBounds(w, i - 1);
    }
  }

  /** The order built from the terms js: the blocks, then the safety net. */
  function OrderFrom(js: seq<int>, size: int): seq<int>
  {
    Blocks(js, size) + MissingUpTo(Blocks(js, size), size)
  }

  /** What buildInsertionOrder(size) returns, as a value: every index in it
      is a pend index 1 .. size-1, so the bounds test in the insertion loop
      never skips one. */
  function InsertionOrder(size: int): (order: seq<int>)
    ensures forall x :: x in order ==> 1 <= x < size
  {
    if size <= 1 then []
    else
      OrderFromInRange(Jacobsthal(size), size);
      OrderFrom(Jacobsthal(size), size)
  }

  /** buildInsertionOrder (ex02/src/PmergeMe.cpp): the block walk over the
      generated terms, then the safety net. */
  method BuildInsertionOrder(size: int) returns (order: seq<int>)
    ensures order == InsertionOrder(size)
  {
    order := [];
    if size <= 1 {
      return;
    }
    var jacob := GenerateJacobsthal(size);
    order := EmitBlocks(jacob, size);
    order := AppendMissed(order, size);
  }

  /** The walk loop of buildInsertionOrder: for each term, the block
      (lastLimit, min(term, size-1)] in descending order. */
  method EmitBlocks(jacob: seq<int>, size: int) returns (order: seq<int>)
    ensures order == Blocks(jacob, size)
  {
    order := [];
    var lastLimit := 1;
    for i := 0 to |jacob|
      invariant order == Blocks(jacob[..i], size) && lastLimit == LastLimit(jacob[..i], size)
    {
      assert jacob[..i + 1][..i] == jacob[..i];
      var upperLimit := if jacob[i] >= size then size - 1 else jacob[i];
      ghost var before := order;
      var j := upperLimit;
      while j > lastLimit
        invariant lastLimit <= j <= upperLimit || (j == upperLimit && upperLimit < lastLimit)
        invariant order == before + Desc(upperLimit, j)
      {
        order := order + [j];
        j := j - 1;
      }
      if upperLimit > lastLimit {
        lastLimit := upperLimit;
      }
    }
    assert jacob[..|jacob|] == jacob;
  }

  /** The safety-net loop of buildInsertionOrder: every index in 1 .. size-1
      not yet in the order is appended, in ascending order. */
  method AppendMissed(w: seq<int>, size: int) returns (order: seq<int>)
    ensures order == w + MissingUpTo(w, size)
  {
    order := w;
    var i := 1;
    while i < size
      invariant 1 <= i <= if size < 1 then 1 else size
      invariant order == w + MissingUpTo(w, i)
    {
      var found := false;
      for j := 0 to |order|
        invariant found <==> i in order[..j]
      {
        if order[j] == i {
          found := true;
        }
        assert order[..j + 1] == order[..j] + [order[j]];
      }
      assert order[..|order|] == order;
      MissingUpToBounds(w, i);
      if !found && i != 0 {
        order := order + [i];
      }
      i := i + 1;
    }
  }

  // ---------------------------------------------------------------------
  // Properties of the insertion order
  // ---------------------------------------------------------------------

  lemma {:induction false} AscSnoc(lo: int, hi: int)
    requires lo <= hi
    ensures Asc(lo, hi + 1) == Asc(lo, hi) + [hi]
    decreases hi - lo
  {
    if lo < hi {
      AscSnoc(lo + 1, hi);
    }
  }

  lemma {:induction false} AscCount(lo: int, hi: int, x: int)
    ensures multiset(Asc(lo, hi))[x] == if lo <= x < hi then 1 else 0
    decreases hi - lo
  {
    if lo < hi {
      var rest := Asc(lo + 1, hi);
      AscCount(lo + 1, hi, x);
      assert Asc(lo, hi) == [lo] + rest;
      assert multiset([lo] + rest) == multiset{lo} + multiset(rest);
    } else {
      assert Asc(lo, hi) == [];
    }
  }

  /** s holds every index of lo .. hi-1 exactly once and nothing else. */
  ghost predicate HoldsRangeOnce(s: seq<int>, lo: int, hi: int)
  {
    forall x :: Count(s, x) == if lo <= x < hi then 1 else 0
  }

  /** Occurrences of x in s. */
  function Count(s: seq<int>, x: int): nat
  {
    multiset(s)[x]
  }

  /** A block (lo, hi] holds each of its indices once. */
  lemma {:induction false} DescCount(hi: int, lo: int, x: int)
    ensures multiset(Desc(hi, lo))[x] == if lo < x <= hi then 1 else 0
    decreases hi - lo
  {
    if lo < hi {
      var rest := Desc(hi, lo + 1);
      DescCount(hi, lo + 1, x);
      assert Desc(hi, lo) == rest + [lo + 1];
      assert multiset(rest + [lo + 1]) == multiset(rest) + multiset{lo + 1};
    } else {
      assert Desc(hi, lo) == [];
    }
  }

  /** The walk emits exactly the indices 2 .. lastLimit, each once, and
      lastLimit stays in 1 .. size-1. */
  lemma {:induction false} WalkEmitsRange(js: seq<int>, size: int)
    requires size >= 2
    ensures 1 <= LastLimit(js, size) <= size - 1
    ensures HoldsRangeOnce(Blocks(js, size), 2, LastLimit(js, size) + 1)
    decreases |js|
  {
    if js != [] {
      var prefix := js[..|js| - 1];
      WalkEmitsRange(prefix, size);
      BlockExtendsRange(Blocks(prefix, size), LastLimit(prefix, size), Clamp(js[|js| - 1], size));
    }
  }

  /** One block of the walk extends the emitted range 2 .. last to
      2 .. max(up, last). */
  lemma {:induction false} BlockExtendsRange(o: seq<int>, last: int, up: int)
    requires 1 <= last
    requires HoldsRangeOnce(o, 2, last + 1)
    ensures HoldsRangeOnce(o + Desc(up, last), 2, (if up > last then up else last) + 1)
  {
    var top := if up > last then up else last;
    forall x ensures Count(o + Desc(up, last), x) == if 2 <= x < top + 1 then 1 else 0 {
      assert Count(o, x) == multiset(o)[x];
      DescCount(up, last, x);
    }
  }

  /** Every index the walk emits lies in 2 .. lastLimit, and each of these is
      emitted. */
  lemma {:induction false} WalkMembers(js: seq<int>, size: int)
    requires size >= 2
    ensures forall x :: x in Blocks(js, size) <==> 2 <= x <= LastLimit(js, size)
  {
    var w := Blocks(js, size);
    WalkEmitsRange(js, size);
    forall x ensures x in w <==> 2 <= x <= LastLimit(js, size) {
      assert x in w <==> Count(w, x) > 0;
    }
  }

  /** Safety net below the last limit: only index 1 is missing. */
  lemma {:induction false} MissingBelowLimit(w: seq<int>, last: int, i: int)
    requires forall x :: x in w <==> 2 <= x <= last
    requires 2 <= i <= last + 1
    ensures MissingUpTo(w, i) == [1]
    decreases i
  {
    if i > 2 {
      MissingBelowLimit(w, last, i - 1);
    }
  }

  /** Safety net: index 1, then every index above the last limit, ascending. */
  lemma {:induction false} MissingShape(w: seq<int>, last: int, i: int)
    requires forall x :: x in w <==> 2 <= x <= last
    requires 1 <= last < i
    ensures MissingUpTo(w, i) == [1] + Asc(last + 1, i)
    decreases i
  {
    if i == last + 1 {
      MissingBelowLimit(w, last, i);
    } else {
      MissingShape(w, last, i - 1);
      AscSnoc(last + 1, i - 1);
    }
  }

  /** The exact shape of the order over any terms: the descending blocks of
      the walk, then index 1, then the indices above the last limit in
      ascending order. */
  lemma {:induction false} OrderFromShape(js: seq<int>, size: int)
    requires size >= 2
    ensures 1 <= LastLimit(js, size) < size
    ensures OrderFrom(js, size) == Blocks(js, size) + [1] + Asc(LastLimit(js, size) + 1, size)
  {
    var w, last := Blocks(js, size), LastLimit(js, size);
    WalkEmitsRange(js, size);
    WalkMembers(js, size);
    MissingShape(w, last, size);
  }

  /** The order over any terms holds each of 1 .. size-1 exactly once. */
  lemma {:induction false} OrderFromIsPermutation(js: seq<int>, size: int)
    requires size >= 2
    ensures multiset(OrderFrom(js, size)) == multiset(Asc(1, size))
  {
    OrderFromShape(js, size);
    WalkEmitsRange(js, size);
    ShapeIsPermutation(OrderFrom(js, size), Blocks(js, size), LastLimit(js, size), size);
  }

  /** The order over any terms holds only indices 1 .. size-1. */
  lemma {:induction false} OrderFromInRange(js: seq<int>, size: int)
    requires size >= 2
    ensures forall x :: x in OrderFrom(js, size) ==> 1 <= x < size
  {
    OrderFromIsPermutation(js, size);
    forall x | x in OrderFrom(js, size)
      ensures 1 <= x < size
    {
      assert x in multiset(Asc(1, size));
      AscCount(1, size, x);
    }
  }

  /** Blocks holding 2 .. last, then 1, then last+1 .. size-1: every index
      of 1 .. size-1 once. */
  lemma {:induction false} ShapeIsPermutation(o: seq<int>, w: seq<int>, last: int, size: int)
    requires 1 <= last < size
    requires HoldsRangeOnce(w, 2, last + 1)
    requires o == w + [1] + Asc(last + 1, size)
    ensures multiset(o) == multiset(Asc(1, size))
  {
    var tail := Asc(last + 1, size);
    var whole := Asc(1, size);
    forall x ensures multiset(o)[x] == multiset(whole)[x] {
      AscCount(last + 1, size, x);
      AscCount(1, size, x);
      assert multiset(o)[x] == Count(w, x) + multiset([1])[x] + multiset(tail)[x];
    }
    assert multiset(o) == multiset(whole);
  }

  /** The exact shape of buildInsertionOrder(size). */
  lemma {:induction false} InsertionOrderShape(size: int)
    requires size >= 2
    ensures var last := LastLimit(Jacobsthal(size), size);
            1 <= last < size && InsertionOrder(size) == Blocks(Jacobsthal(size), size) + [1] + Asc(last + 1, size)
  {
    OrderFromShape(Jacobsthal(size), size);
  }

  /** For size >= 2 the order is a permutation of 1 .. size-1: the same
      multiset, so no index is missing or repeated and 0 never appears. */
  lemma {:induction false} InsertionOrderIsPermutation(size: int)
    ensures size <= 1 ==> InsertionOrder(size) == []
    ensures size >= 2 ==> multiset(InsertionOrder(size)) == multiset(Asc(1, size))
  {
    if size >= 2 {
      OrderFromIsPermutation(Jacobsthal(size), size);
    }
  }

  /** The permutation stated index by index: |order| == size-1, every entry is
      in 1 .. size-1, every such index occurs, and no entry is repeated. */
  lemma {:induction false} InsertionOrderCoversOnce(size: int)
    requires size >= 2
    ensures |InsertionOrder(size)| == size - 1
    ensures forall x :: x in InsertionOrder(size) <==> 1 <= x < size
    ensures forall i, j :: 0 <= i < j < |InsertionOrder(size)| ==>
              InsertionOrder(size)[i] != InsertionOrder(size)[j]
  {
    var r := InsertionOrder(size);
    InsertionOrderIsPermutation(size);
    assert |multiset(r)| == |multiset(Asc(1, size))|;
    AscLength(1, size);
    forall x ensures x in r <==> 1 <= x < size {
      assert x in r <==> x in multiset(r);
      AscCount(1, size, x);
    }
    forall i, j | 0 <= i < j < |r| ensures r[i] != r[j] {
      if r[i] == r[j] {
        var x := r[i];
        assert r == r[..j] + r[j..];
        assert x in r[..j];
        assert multiset(r)[x] == multiset(r[..j])[x] + multiset(r[j..])[x];
        assert x in multiset(r[j..]);
        AscCount(1, size, x);
        assert false;
      }
    }
  }

  lemma {:induction false} AscLength(lo: int, hi: int)
    requires lo <= hi
    ensures |Asc(lo, hi)| == hi - lo
    decreases hi - lo
  {
    if lo < hi {
      AscLength(lo + 1, hi);
    }
  }

  /** One more term appends one block to the walk. */
  lemma {:induction false} BlocksSnoc(js: seq<int>, t: int, size: int)
    ensures Blocks(js + [t], size) == Blocks(js, size) + Desc(Clamp(t, size), LastLimit(js, size))
    ensures LastLimit(js + [t], size) == if Clamp(t, size) > LastLimit(js, size) then Clamp(t, size) else LastLimit(js, size)
  {
    assert (js + [t])[..|js|] == js;
  }

  lemma {:induction false} WalkOfFive()
    ensures Blocks([1, 3], 5) == [3, 2] && LastLimit([1, 3], 5) == 3
  {
    BlocksSnoc([], 1, 5);
    assert [] + [1] == [1];
    BlocksSnoc([1], 3, 5);
    assert [1] + [3] == [1, 3];
    assert Desc(3, 1) == [3, 2] by {
      assert Desc(3, 2) == [3];
    }
  }

  /** Worked order for a pend of 5: [3, 2, 1, 4]. */
  lemma {:induction false} InsertionOrderOfFive()
    ensures InsertionOrder(5) == [3, 2, 1, 4]
  {
    assert TermCount(5) == 2 by {
      assert Jac(2) == 5;
    }
    assert Jacobsthal(5) == [1, 3];
    WalkOfFive();
    OrderFromShape([1, 3], 5);
    assert Asc(4, 5) == [4];
  }

  lemma {:induction false} WalkOfSix()
    ensures Blocks([1, 3, 5], 6) == [3, 2, 5, 4] && LastLimit([1, 3, 5], 6) == 5
  {
    assert Blocks([1, 3], 6) == [3, 2] && LastLimit([1, 3], 6) == 3 by {
      BlocksSnoc([], 1, 6);
      assert [] + [1] == [1];
      BlocksSnoc([1], 3, 6);
      assert [1] + [3] == [1, 3];
      assert Desc(3, 1) == [3, 2] by {
        assert Desc(3, 2) == [3];
      }
    }
    BlocksSnoc([1, 3], 5, 6);
    assert [1, 3] + [5] == [1, 3, 5];
    assert Desc(5, 3) == [5, 4] by {
      assert Desc(5, 4) == [5];
    }
  }

  /** Worked order for a pend of 6: [3, 2, 5, 4, 1]. */
  lemma {:induction false} InsertionOrderOfSix()
    ensures InsertionOrder(6) == [3, 2, 5, 4, 1]
  {
    assert TermCount(6) == 3 by {
      assert Jac(2) == 5;
      assert Jac(3) == 11;
    }
    assert Jacobsthal(6) == [1, 3, 5];
    WalkOfSix();
    OrderFromShape([1, 3, 5], 6);
    assert Asc(6, 6) == [];
  }
}

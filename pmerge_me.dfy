/**
 * The merge-insertion sort of PmergeMe (one template body, instantiated for
 * both std::vector<int> and std::deque<int>, modelled once on seq<int>) and
 * the argument parser that fills the two member containers.
 *
 * As the template is written it does not recurse on the winners: the pairs
 * are ordered by an exchange sort and every binary search spans the whole
 * main chain. What it promises, and what is proved here, is that the result
 * is sorted and a permutation of the input.
 */
module PmergeMe {
  import opened Jacobsthal
  import opened Characters

  // ---------------------------------------------------------------------
  // Ordering and pairs
  // ---------------------------------------------------------------------

  predicate Sorted(s: seq<int>)
  {
    forall i, j :: 0 <= i < j < |s| ==> s[i] <= s[j]
  }

  /** A pair of adjacent elements, the larger one as winner. */
  datatype Pair = Pair(winner: int, loser: int)

  predicate WellFormed(ps: seq<Pair>)
  {
    forall k :: 0 <= k < |ps| ==> ps[k].winner >= ps[k].loser
  }

  predicate SortedByWinner(ps: seq<Pair>)
  {
    forall i, j :: 0 <= i < j < |ps| ==> ps[i].winner <= ps[j].winner
  }

  /** The main chain read off the pairs. */
  function Winners(ps: seq<Pair>): (r: seq<int>)
    ensures |r| == |ps| && forall k :: 0 <= k < |ps| ==> r[k] == ps[k].winner
  {
    seq(|ps|, k requires 0 <= k < |ps| => ps[k].winner)
  }

  /** The pend read off the pairs. */
  function Losers(ps: seq<Pair>): (r: seq<int>)
    ensures |r| == |ps| && forall k :: 0 <= k < |ps| ==> r[k] == ps[k].loser
  {
    seq(|ps|, k requires 0 <= k < |ps| => ps[k].loser)
  }

  /** Every element held by the pairs, winners and losers together. */
  function Elements(ps: seq<Pair>): multiset<int>
  {
    multiset(Winners(ps)) + multiset(Losers(ps))
  }

  function Max(a: int, b: int): int { if a < b then b else a }
  function Min(a: int, b: int): int { if a < b then a else b }

  // ---------------------------------------------------------------------
  // Step 2: pair formation
  // ---------------------------------------------------------------------

  /** The pair formed from two adjacent elements: the larger one is the
      winner (on equal values the earlier element wins, which for plain
      integers yields the same pair). */
  function PairOf(a: int, b: int): Pair
  {
    if a < b then Pair(b, a) else Pair(a, b)
  }

  /** The pairs of c[0],c[1], c[2],c[3], ...: half as many pairs as
      elements, each with its winner at least its loser. */
  function PairsOf(c: seq<int>): (ps: seq<Pair>)
    requires |c| % 2 == 0
    ensures |ps| == |c| / 2 && WellFormed(ps)
  {
    if c == [] then [] else PairsOf(c[..|c| - 2]) + [PairOf(c[|c| - 2], c[|c| - 1])]
  }

  /** Each pair holds the maximum and the minimum of its two elements, and
      the pairs together hold exactly the elements of c. */
  lemma {:induction false} PairsOfFacts(c: seq<int>)
    requires |c| % 2 == 0
    ensures |PairsOf(c)| == |c| / 2
    ensures forall k :: 0 <= k < |c| / 2 ==>
              PairsOf(c)[k].winner == Max(c[2 * k], c[2 * k + 1]) && PairsOf(c)[k].loser == Min(c[2 * k], c[2 * k + 1])
    ensures WellFormed(PairsOf(c))
    ensures Elements(PairsOf(c)) == multiset(c)
    decreases |c|
  {
    if c != [] {
      var c' := c[..|c| - 2];
      var a, b := c[|c| - 2], c[|c| - 1];
      PairsOfFacts(c');
      ElementsSnoc(PairsOf(c'), PairOf(a, b));
      assert c == c' + [a, b];
      assert multiset(c) == multiset(c') + multiset{a, b};
    }
  }

  /** The pairing loop of fordJohnsonSort. */
  method MakePairs(c: seq<int>) returns (pairs: seq<Pair>)
    requires |c| % 2 == 0
    ensures pairs == PairsOf(c)
  {
    pairs := [];
    var i := 0;
    while i < |c|
      invariant 0 <= i <= |c| && i % 2 == 0
      invariant pairs == PairsOf(c[..i])
    {
      var p := if c[i] < c[i + 1] then Pair(c[i + 1], c[i]) else Pair(c[i], c[i + 1]);
      assert c[..i + 2][..i] == c[..i];
      pairs := pairs + [p];
      i := i + 2;
    }
    assert c[..i] == c;
  }

  lemma {:induction false} ElementsSnoc(ps: seq<Pair>, p: Pair)
    ensures Elements(ps + [p]) == Elements(ps) + multiset{p.winner, p.loser}
  {
    assert Winners(ps + [p]) == Winners(ps) + [p.winner];
    assert Losers(ps + [p]) == Losers(ps) + [p.loser];
  }

  // ---------------------------------------------------------------------
  // Step 3: ordering the pairs by winner
  // ---------------------------------------------------------------------

  function Swap<T>(s: seq<T>, i: int, j: int): seq<T>
    requires 0 <= i < |s| && 0 <= j < |s|
  {
    s[i := s[j]][j := s[i]]
  }

  /** Exchanging two pairs keeps the pairs and their elements. */
  lemma {:induction false} SwapKeepsElements(ps: seq<Pair>, i: int, j: int)
    requires 0 <= i < |ps| && 0 <= j < |ps|
    ensures multiset(Swap(ps, i, j)) == multiset(ps)
    ensures Elements(Swap(ps, i, j)) == Elements(ps)
  {
    assert Winners(Swap(ps, i, j)) == Swap(Winners(ps), i, j);
    assert Losers(Swap(ps, i, j)) == Swap(Losers(ps), i, j);
  }

  /** The nested exchange loops: afterwards the pairs are ascending by
      winner and are a permutation of the pairs before. */
  method SortPairs(pairs: seq<Pair>) returns (sorted: seq<Pair>)
    ensures |sorted| == |pairs| && SortedByWinner(sorted)
    ensures multiset(sorted) == multiset(pairs)
    ensures Elements(sorted) == Elements(pairs)
    ensures WellFormed(pairs) ==> WellFormed(sorted)
  {
    sorted := pairs;
    var i := 0;
    while i < |sorted|
      invariant 0 <= i <= |sorted| == |pairs|
      invariant multiset(sorted) == multiset(pairs) && Elements(sorted) == Elements(pairs)
      invariant WellFormed(pairs) ==> WellFormed(sorted)
      invariant PrefixPlaced(sorted, i)
    {
      sorted := PlaceSmallest(sorted, i);
      i := i + 1;
    }
  }

  /** Positions before i hold winners no larger than any later winner. */
  predicate PrefixPlaced(r: seq<Pair>, i: int)
  {
    forall a, b :: 0 <= a < i && a < b < |r| ==> r[a].winner <= r[b].winner
  }

  /** Position i holds a winner no larger than those at i+1 .. j-1. */
  predicate HeadSmallest(r: seq<Pair>, i: int, j: int)
    requires 0 <= i < |r| && j <= |r|
  {
    forall b :: i < b < j ==> r[i].winner <= r[b].winner
  }

  /** The inner loop for position i: every later pair with a smaller winner
      is exchanged into position i, which ends up holding a smallest winner
      of the positions from i on. */
  method PlaceSmallest(s: seq<Pair>, i: int) returns (r: seq<Pair>)
    requires 0 <= i < |s| && PrefixPlaced(s, i)
    ensures |r| == |s| && PrefixPlaced(r, i + 1)
    ensures multiset(r) == multiset(s) && Elements(r) == Elements(s)
    ensures WellFormed(s) ==> WellFormed(r)
  {
    r := s;
    var j := i + 1;
    while j < |r|
      invariant i < j <= |r| == |s|
      invariant multiset(r) == multiset(s) && Elements(r) == Elements(s)
      invariant WellFormed(s) ==> WellFormed(r)
      invariant PrefixPlaced(r, i) && HeadSmallest(r, i, j)
    {
      ExchangeStep(r, i, j);
      if r[i].winner > r[j].winner {
        r := Swap(r, i, j);
      }
      j := j + 1;
    }
    PlacedExtends(r, i);
  }

  /** One comparison of the inner loop keeps its invariant. */
  lemma {:induction false} ExchangeStep(r: seq<Pair>, i: int, j: int)
    requires 0 <= i < j < |r| && PrefixPlaced(r, i) && HeadSmallest(r, i, j)
    ensures var r' := if r[i].winner > r[j].winner then Swap(r, i, j) else r;
            |r'| == |r| && PrefixPlaced(r', i) && HeadSmallest(r', i, j + 1)
            && multiset(r') == multiset(r) && Elements(r') == Elements(r)
            && (WellFormed(r) ==> WellFormed(r'))
  {
    if r[i].winner > r[j].winner {
      SwapKeepsElements(r, i, j);
    }
  }

  lemma {:induction false} PlacedExtends(r: seq<Pair>, i: int)
    requires 0 <= i < |r| && PrefixPlaced(r, i) && HeadSmallest(r, i, |r|)
    ensures PrefixPlaced(r, i + 1)
  {
  }

  // ---------------------------------------------------------------------
  // Step 4: main chain and pend
  // ---------------------------------------------------------------------

  method SplitPairs(pairs: seq<Pair>) returns (mainChain: seq<int>, pend: seq<int>)
    ensures mainChain == Winners(pairs) && pend == Losers(pairs)
  {
    mainChain, pend := [], [];
    for i := 0 to |pairs|
      invariant mainChain == Winners(pairs[..i]) && pend == Losers(pairs[..i])
    {
      assert Winners(pairs[..i + 1]) == Winners(pairs[..i]) + [pairs[i].winner];
      assert Losers(pairs[..i + 1]) == Losers(pairs[..i]) + [pairs[i].loser];
      mainChain := mainChain + [pairs[i].winner];
      pend := pend + [pairs[i].loser];
    }
    assert pairs[..|pairs|] == pairs;
  }

  /** Sorted winners form a sorted chain. */
  lemma {:induction false} WinnersSorted(ps: seq<Pair>)
    requires SortedByWinner(ps)
    ensures Sorted(Winners(ps))
  {
  }

  /** Step 5: pend[0] is at most every winner, so putting it at the front of
      the sorted winners keeps the chain sorted. */
  lemma {:induction false} FirstLoserLeadsChain(ps: seq<Pair>)
    requires |ps| > 0 && WellFormed(ps) && SortedByWinner(ps)
    ensures Sorted([Losers(ps)[0]] + Winners(ps))
  {
    var c := [Losers(ps)[0]] + Winners(ps);
    forall i, j | 0 <= i < j < |c| ensures c[i] <= c[j] {
      if i == 0 {
        assert c[j] == ps[j - 1].winner;
        assert ps[0].loser <= ps[0].winner;
      }
    }
  }

  // ---------------------------------------------------------------------
  // lower_bound and insertion
  // ---------------------------------------------------------------------

  /** std::lower_bound: the first position whose element is not less than x. */
  method LowerBound(s: seq<int>, x: int) returns (pos: nat)
    requires Sorted(s)
    ensures pos <= |s|
    ensures forall k :: 0 <= k < pos ==> s[k] < x
    ensures forall k :: pos <= k < |s| ==> x <= s[k]
  {
    var lo, hi := 0, |s|;
    while lo < hi
      invariant 0 <= lo <= hi <= |s|
      invariant forall k :: 0 <= k < lo ==> s[k] < x
      invariant forall k :: hi <= k < |s| ==> x <= s[k]
    {
      var mid := lo + (hi - lo) / 2;
      if s[mid] < x {
        lo := mid + 1;
      } else {
        hi := mid;
      }
    }
    pos := lo;
  }

  /** mainChain.insert(lower_bound(..., x), x): x lands before every element
      not less than it, so before any equal value already there. */
  method InsertAtLowerBound(chain: seq<int>, x: int) returns (r: seq<int>)
    requires Sorted(chain)
    ensures Sorted(r)
    ensures multiset(r) == multiset(chain) + multiset{x}
    ensures exists pos :: 0 <= pos <= |chain| && r == chain[..pos] + [x] + chain[pos..]
              && (forall k :: 0 <= k < pos ==> chain[k] < x)
              && (forall k :: pos <= k < |chain| ==> x <= chain[k])
  {
    var pos := LowerBound(chain, x);
    r := chain[..pos] + [x] + chain[pos..];
    assert chain == chain[..pos] + chain[pos..];
    InsertKeepsSorted(chain, x, pos);
  }

  lemma {:induction false} InsertKeepsSorted(chain: seq<int>, x: int, pos: nat)
    requires Sorted(chain) && pos <= |chain|
    requires forall k :: 0 <= k < pos ==> chain[k] < x
    requires forall k :: pos <= k < |chain| ==> x <= chain[k]
    ensures Sorted(chain[..pos] + [x] + chain[pos..])
  {
    var r := chain[..pos] + [x] + chain[pos..];
    forall i, j | 0 <= i < j < |r| ensures r[i] <= r[j] {
      if j < pos || i > pos {
      } else if i == pos {
        assert r[j] == chain[j - 1];
      } else if j == pos {
        assert r[i] == chain[i];
      } else {
        assert r[i] == chain[i] && r[j] == chain[j - 1];
      }
    }
  }

  // ---------------------------------------------------------------------
  // Step 6: inserting the pend in the planned order
  // ---------------------------------------------------------------------

  /** The pend values an order inserts, in that order; indices <= 0 or
      >= |pend| are skipped, so at most one value per index is picked and
      pend[0] is never picked through index 0. */
  function Picked(pend: seq<int>, order: seq<int>): (vs: seq<int>)
    ensures |vs| <= |order|
    ensures forall v :: v in vs ==> |pend| > 1 && v in pend[1..]
  {
    if order == [] then []
    else
      var idx := order[|order| - 1];
      Picked(pend, order[..|order| - 1]) + (if idx <= 0 || idx >= |pend| then [] else [pend[idx]])
  }

  method InsertPend(chain: seq<int>, pend: seq<int>, order: seq<int>) returns (r: seq<int>)
    requires Sorted(chain)
    ensures Sorted(r)
    ensures multiset(r) == multiset(chain) + multiset(Picked(pend, order))
  {
    r := chain;
    ghost var done: seq<int> := [];
    for i := 0 to |order|
      invariant Sorted(r)
      invariant done == Picked(pend, order[..i])
      invariant multiset(r) == multiset(chain) + multiset(done)
    {
      PickedStep(pend, order, i);
      var idx := order[i];
      if idx <= 0 || idx >= |pend| {
        continue;
      }
      var val := pend[idx];
      ghost var before := r;
      r := InsertAtLowerBound(r, val);
      AddOne(multiset(before), multiset(chain), done, val);
      done := done + [val];
    }
    assert order[..|order|] == order;
  }

  /** One more entry of the order picks one more pend value, or none when
      the index is out of range. */
  lemma {:induction false} PickedStep(pend: seq<int>, order: seq<int>, i: int)
    requires 0 <= i < |order|
    ensures Picked(pend, order[..i + 1]) == Picked(pend, order[..i])
              + (if order[i] <= 0 || order[i] >= |pend| then [] else [pend[order[i]]])
  {
    assert order[..i + 1][..i] == order[..i];
  }

  /** Multiset bookkeeping for one insertion. */
  lemma {:induction false} AddOne(m: multiset<int>, c: multiset<int>, done: seq<int>, v: int)
    requires m == c + multiset(done)
    ensures m + multiset{v} == c + multiset(done + [v])
  {
    assert multiset(done + [v]) == multiset(done) + multiset{v};
  }

  lemma {:induction false} PickedAppend(pend: seq<int>, a: seq<int>, b: seq<int>)
    ensures Picked(pend, a + b) == Picked(pend, a) + Picked(pend, b)
    decreases |b|
  {
    if b == [] {
      assert a + b == a;
    } else {
      var b' := b[..|b| - 1];
      assert (a + b)[..|a + b| - 1] == a + b';
      PickedAppend(pend, a, b');
    }
  }

  /** Orders holding the same indices pick the same pend values. */
  lemma {:induction false} PickedPermutation(pend: seq<int>, s: seq<int>, t: seq<int>)
    requires multiset(s) == multiset(t)
    ensures multiset(Picked(pend, s)) == multiset(Picked(pend, t))
    decreases |s|
  {
    if s == [] {
      assert |t| == |multiset(t)| == 0;
    } else {
      var m := RemoveOne(s, t);
      PickedPermutation(pend, s[..|s| - 1], t[..m] + t[m + 1..]);
      PickedSplitOut(pend, s, t, m);
    }
  }

  /** An occurrence in t of the last element of s; s without it and t
      without that occurrence hold the same elements. */
  lemma {:induction false} RemoveOne(s: seq<int>, t: seq<int>) returns (m: int)
    requires s != [] && multiset(s) == multiset(t)
    ensures 0 <= m < |t| && t == t[..m] + [s[|s| - 1]] + t[m + 1..]
    ensures multiset(s[..|s| - 1]) == multiset(t[..m] + t[m + 1..])
  {
    assert s == s[..|s| - 1] + [s[|s| - 1]];
    assert s[|s| - 1] in multiset(t);
    m :| 0 <= m < |t| && t[m] == s[|s| - 1];
    assert t == t[..m] + [s[|s| - 1]] + t[m + 1..];
    Cancel3(multiset(s[..|s| - 1]), multiset(t[..m]), multiset(t[m + 1..]), multiset([s[|s| - 1]]));
  }

  lemma {:induction false} Cancel3(a: multiset<int>, b1: multiset<int>, b2: multiset<int>, x: multiset<int>)
    requires a + x == b1 + x + b2
    ensures a == b1 + b2
  {
    forall y ensures a[y] == (b1 + b2)[y] {
      assert (a + x)[y] == (b1 + x + b2)[y];
    }
  }

  lemma {:induction false} PickedSplitOut(pend: seq<int>, s: seq<int>, t: seq<int>, m: int)
    requires s != [] && 0 <= m < |t| && t == t[..m] + [s[|s| - 1]] + t[m + 1..]
    requires multiset(Picked(pend, s[..|s| - 1])) == multiset(Picked(pend, t[..m] + t[m + 1..]))
    ensures multiset(Picked(pend, s)) == multiset(Picked(pend, t))
  {
    assert s == s[..|s| - 1] + [s[|s| - 1]];
    PickedReinsert(pend, s[..|s| - 1], s[|s| - 1], t[..m], t[m + 1..]);
  }

  /** Putting x back at the end of one order and between t1 and t2 in the
      other keeps the picked values equal. */
  lemma {:induction false} PickedReinsert(pend: seq<int>, s: seq<int>, x: int, t1: seq<int>, t2: seq<int>)
    requires multiset(Picked(pend, s)) == multiset(Picked(pend, t1 + t2))
    ensures multiset(Picked(pend, s + [x])) == multiset(Picked(pend, t1 + [x] + t2))
  {
    PickedAppend(pend, s, [x]);
    PickedAppend(pend, t1, t2);
    PickedAppend(pend, t1 + [x], t2);
    PickedAppend(pend, t1, [x]);
    Reshuffle(multiset(Picked(pend, s)), multiset(Picked(pend, t1)), multiset(Picked(pend, t2)), multiset(Picked(pend, [x])));
  }

  lemma {:induction false} Reshuffle(a: multiset<int>, b1: multiset<int>, b2: multiset<int>, x: multiset<int>)
    requires a == b1 + b2
    ensures a + x == b1 + x + b2
  {
  }

  /** Inserting indices 1 .. hi-1 in ascending order picks pend[1..hi]. */
  lemma {:induction false} PickedRange(pend: seq<int>, hi: int)
    requires 1 <= hi <= |pend|
    ensures Picked(pend, Asc(1, hi)) == pend[1..hi]
    decreases hi
  {
    if hi > 1 {
      PickedRange(pend, hi - 1);
      AscSnoc(1, hi - 1);
      assert Asc(1, hi)[..|Asc(1, hi)| - 1] == Asc(1, hi - 1);
    }
  }

  /** The planned order inserts every pend element except pend[0], once. */
  lemma {:induction false} PlanPicksRestOfPend(pend: seq<int>, order: seq<int>)
    requires |pend| > 1 && order == InsertionOrder(|pend|)
    ensures multiset(Picked(pend, order)) == multiset(pend[1..])
  {
    var all := Asc(1, |pend|);
    assert multiset(Picked(pend, order)) == multiset(Picked(pend, all)) by {
      InsertionOrderIsPermutation(|pend|);
      PickedPermutation(pend, order, all);
    }
    assert Picked(pend, all) == pend[1..] by {
      PickedRange(pend, |pend|);
      assert pend[1..|pend|] == pend[1..];
    }
  }

  // ---------------------------------------------------------------------
  // fordJohnsonSort
  // ---------------------------------------------------------------------

  /** fordJohnsonSort: the container afterwards is non-decreasing and holds
      exactly the values it held before; a container of 0 or 1 elements is
      left as it is. */
  method FordJohnsonSort(container: seq<int>) returns (sorted: seq<int>)
    ensures Sorted(sorted)
    ensures multiset(sorted) == multiset(container)
    ensures |sorted| == |container|
    ensures |container| <= 1 ==> sorted == container
    ensures Sorted(container) ==> sorted == container
  {
    if |container| <= 1 {
      return container;
    }
    if |container| % 2 == 0 {
      sorted := SortPaired(container);
    } else {
      // the straggler is held back and inserted last
      var straggler := container[|container| - 1];
      var c := container[..|container| - 1];
      assert container == c + [straggler];
      var chain := SortPaired(c);
      sorted := InsertAtLowerBound(chain, straggler);
    }
    assert |sorted| == |multiset(sorted)|;
    if Sorted(container) {
      SortedPermutationUnique(sorted, container);
    }
  }

  /** Steps 2 to 6 of fordJohnsonSort on an even number of elements. */
  method SortPaired(c: seq<int>) returns (chain: seq<int>)
    requires |c| % 2 == 0 && |c| >= 2
    ensures Sorted(chain)
    ensures multiset(chain) == multiset(c)
  {
    var pairs := MakePairs(c);
    PairsOfFacts(c);
    pairs := SortPairs(pairs);
    var mainChain, pend := SplitPairs(pairs);
    WinnersSorted(pairs);
    FirstLoserLeadsChain(pairs);
    chain := [pend[0]] + mainChain;
    assert pend == [pend[0]] + pend[1..];
    assert multiset(chain) + multiset(pend[1..]) == multiset(c);
    if |pend| > 1 {
      var order := BuildInsertionOrder(|pend|);
      chain := InsertPend(chain, pend, order);
      PlanPicksRestOfPend(pend, order);
    } else {
      assert pend[1..] == [];
    }
  }

  /** A sorted permutation is unique: two runs on the same values (a
      std::vector and a std::deque, or a second run on sorted output) give
      the same sequence. */
  lemma {:induction false} SortedPermutationUnique(a: seq<int>, b: seq<int>)
    requires Sorted(a) && Sorted(b) && multiset(a) == multiset(b)
    ensures a == b
    decreases |a|
  {
    assert |a| == |multiset(a)| == |multiset(b)| == |b|;
    if a != [] {
      SameMinimum(a, b);
      SameRest(a, b);
      SortedPermutationUnique(a[1..], b[1..]);
    }
  }

  /** Two sorted sequences with the same elements start with the same one,
      their minimum. */
  lemma {:induction false} SameMinimum(a: seq<int>, b: seq<int>)
    requires a != [] && b != [] && Sorted(a) && Sorted(b) && multiset(a) == multiset(b)
    ensures a[0] == b[0]
  {
    assert a[0] in multiset(b) && b[0] in multiset(a);
    var i :| 0 <= i < |b| && b[i] == a[0];
    var j :| 0 <= j < |a| && a[j] == b[0];
  }

  lemma {:induction false} SameRest(a: seq<int>, b: seq<int>)
    requires a != [] && b != [] && a[0] == b[0] && multiset(a) == multiset(b)
    ensures multiset(a[1..]) == multiset(b[1..])
  {
    assert a == [a[0]] + a[1..] && b == [b[0]] + b[1..];
    Cancel(multiset(a[1..]), multiset(b[1..]), multiset{a[0]});
  }

  lemma {:induction false} Cancel(a: multiset<int>, b: multiset<int>, x: multiset<int>)
    requires x + a == x + b
    ensures a == b
  {
    forall y ensures a[y] == b[y] {
      assert (x + a)[y] == (x + b)[y];
    }
  }

  // ---------------------------------------------------------------------
  // parseInput
  // ---------------------------------------------------------------------

  const IntMax := 2147483647

  /** An argument parseInput accepts: non-empty, no character outside
      "0123456789", value at most 2147483647. */
  predicate Accepted(arg: string)
  {
    |arg| > 0 && AllDigits(arg) && DecimalValue(arg) <= IntMax
  }

  /** The character checks of parseInput: an accepted argument is non-empty
      and made of characters of "0123456789", and an empty argument or one
      holding any other character is rejected. */
  lemma AcceptedChecks(arg: string)
    ensures Accepted(arg) ==> |arg| > 0 && forall k :: 0 <= k < |arg| ==> arg[k] in "0123456789"
    ensures |arg| == 0 || (exists k :: 0 <= k < |arg| && arg[k] !in "0123456789") ==> !Accepted(arg)
  {
    if Accepted(arg) {
      forall k | 0 <= k < |arg|
        ensures arg[k] in "0123456789"
      {
        DigitInDigits(arg[k]);
      }
    }
  }

  lemma DigitInDigits(c: char)
    requires IsDigit(c)
    ensures c in "0123456789"
  {
    assert "0123456789"[c as int - '0' as int] == c;
  }

  /** Index of the first argument parseInput rejects, or |args|. */
  function FirstRejected(args: seq<string>): (k: nat)
    ensures k <= |args|
    ensures forall i :: 0 <= i < k ==> Accepted(args[i])
    ensures k < |args| ==> !Accepted(args[k])
  {
    if args == [] then 0
    else if !Accepted(args[0]) then 0
    else 1 + FirstRejected(args[1..])
  }

  /** The values of accepted arguments, in argument order. */
  function Values(args: seq<string>): (r: seq<int>)
    requires forall i :: 0 <= i < |args| ==> Accepted(args[i])
    ensures |r| == |args|
    ensures forall i :: 0 <= i < |args| ==> Accepted(args[i]) && 0 <= r[i] <= IntMax && r[i] == DecimalValue(args[i])
  {
    if args == [] then []
    else
      assert Accepted(args[0]);
      assert forall i :: 0 <= i < |args| - 1 ==> args[1..][i] == args[i + 1] && Accepted(args[i + 1]);
      [DecimalValue(args[0]) as int] + Values(args[1..])
  }

  /** The decimal spelling of n, the inverse of DecimalValue. */
  function DecimalString(n: nat): (s: string)
    ensures |s| > 0 && AllDigits(s)
  {
    if n < 10 then [('0' as int + n) as char]
    else DecimalString(n / 10) + [('0' as int + n % 10) as char]
  }

  /** Every value 0 .. 2147483647 written in decimal is accepted and parsed
      back to itself. */
  lemma {:induction false} DecimalRoundTrip(n: nat)
    ensures DecimalValue(DecimalString(n)) == n
    ensures n <= IntMax ==> Accepted(DecimalString(n))
  {
    var s := DecimalString(n);
    if n >= 10 {
      DecimalRoundTrip(n / 10);
      assert s[..|s| - 1] == DecimalString(n / 10);
    }
  }

  /** The two containers filled by parseInput. */
  class Containers {
    var vec: seq<int>
    var deq: seq<int>

    constructor ()
      ensures vec == [] && deq == []
    {
      vec, deq := [], [];
    }

    /** parseInput over av[1..]: each accepted value is appended to both
        containers in argument order; at the first rejected argument it
        stops with an error (ok == false), keeping what it appended before. */
    method ParseInput(args: seq<string>) returns (ok: bool)
      modifies this
      ensures ok <==> FirstRejected(args) == |args|
      ensures vec == old(vec) + Values(args[..FirstRejected(args)])
      ensures deq == old(deq) + Values(args[..FirstRejected(args)])
    {
      ghost var vec0, deq0 := vec, deq;
      var i := 0;
      while i < |args|
        invariant 0 <= i <= FirstRejected(args)
        invariant vec == vec0 + Values(args[..i]) && deq == deq0 + Values(args[..i])
      {
        var accepted, val := ParseArgument(args[i]);
        if !accepted {
          RejectedAt(args, i);
          return false;
        }
        AcceptedAt(args, i);
        vec := vec + [val];
        deq := deq + [val];
        i := i + 1;
      }
      return true;
    }
  }

  /** The first argument that fails the checks is where parsing stops. */
  lemma {:induction false} RejectedAt(args: seq<string>, i: int)
    requires 0 <= i <= FirstRejected(args) && i < |args| && !Accepted(args[i])
    ensures FirstRejected(args) == i
  {
  }

  /** An argument that passes the checks extends the parsed values by its
      own value. */
  lemma {:induction false} AcceptedAt(args: seq<string>, i: int)
    requires 0 <= i <= FirstRejected(args) && i < |args| && Accepted(args[i])
    ensures i + 1 <= FirstRejected(args)
    ensures Values(args[..i + 1]) == Values(args[..i]) + [DecimalValue(args[i])]
  {
    var before := args[..i];
    assert forall j :: 0 <= j < |before| ==> Accepted(before[j]) by {
      forall j | 0 <= j < |before|
        ensures Accepted(before[j])
      {
        assert before[j] == args[j];
      }
    }
    assert Values(before + [args[i]]) == Values(before) + [DecimalValue(args[i])] by {
      ValuesSnoc(before, args[i]);
    }
    assert args[..i + 1] == before + [args[i]];
  }

  /** The checks parseInput makes on one argument: rejected when empty or
      holding a character outside "0123456789", otherwise converted and
      rejected when above 2147483647. */
  method ParseArgument(s: string) returns (accepted: bool, val: int)
    ensures accepted <==> Accepted(s)
    ensures accepted ==> val == DecimalValue(s)
  {
    if |s| == 0 || !AllDigits(s) {
      return false, 0;
    }
    val := DecimalValue(s);
    if val > IntMax {
      return false, 0;
    }
    return true, val;
  }

  lemma {:induction false} ValuesSnoc(args: seq<string>, a: string)
    requires forall i :: 0 <= i < |args| ==> Accepted(args[i])
    requires Accepted(a)
    ensures Values(args + [a]) == Values(args) + [DecimalValue(a)]
    decreases |args|
  {
    if args != [] {
      assert (args + [a])[1..] == args[1..] + [a];
      ValuesSnoc(args[1..], a);
    }
  }
}

/**
 * lattice.go: the grid of nodes, stored row by row, and sorting a copy of
 * it by a caller-supplied comparator.
 */
module Lattices {
  import opened Nodes

  lemma {:induction false} MulMonotone(a: nat, b: nat, w: nat)
    ensures a <= b ==> a * w <= b * w
  {
  }

  /** Row-major addressing: entry j of row i sits at i * width + j. */
  lemma {:induction false} RowMajor(i: nat, j: nat, width: nat)
    requires j < width
    ensures (i * width + j) / width == i && (i * width + j) % width == j
  {
    var k := i * width + j;
    var q, r := k / width, k % width;
    assert k == q * width + r;
    MulMonotone(q + 1, i, width);
    MulMonotone(i + 1, q, width);
    assert (q + 1) * width == q * width + width;
    assert (i + 1) * width == i * width + width;
  }

  method NewLattice(width: nat, height: nat, dimensions: nat) returns (lattice: seq<Node>)
    ensures |lattice| == width * height
    ensures forall k :: 0 <= k < |lattice| ==>
              lattice[k].Position == [(k % width) as real, (k / width) as real]
              && lattice[k].Weights == seq(dimensions, _ => 0.0)
    ensures forall k :: 0 <= k < |lattice| ==> fresh(lattice[k])
    ensures forall p, q :: 0 <= p < q < |lattice| ==> lattice[p] != lattice[q]
  {
    lattice := [];
    for i := 0 to height
      invariant |lattice| == i * width
      invariant forall k :: 0 <= k < |lattice| ==>
                  lattice[k].Position == [(k % width) as real, (k / width) as real]
                  && lattice[k].Weights == seq(dimensions, _ => 0.0)
      invariant forall k :: 0 <= k < |lattice| ==> fresh(lattice[k])
      invariant forall p, q :: 0 <= p < q < |lattice| ==> lattice[p] != lattice[q]
    {
      var row := NewRow(i, width, dimensions);
      assert (i + 1) * width == i * width + width;
      lattice := lattice + row;
    }
  }

  /** Row i of NewLattice: the nodes (0, i) .. (width - 1, i), which sit at
      indices i * width .. i * width + width - 1 of the lattice. */
  method NewRow(i: nat, width: nat, dimensions: nat) returns (row: seq<Node>)
    ensures |row| == width
    ensures forall j :: 0 <= j < width ==>
              row[j].Position == [((i * width + j) % width) as real, ((i * width + j) / width) as real]
              && row[j].Weights == seq(dimensions, _ => 0.0)
    ensures forall j :: 0 <= j < width ==> fresh(row[j])
    ensures forall p, q :: 0 <= p < q < width ==> row[p] != row[q]
  {
    row := [];
    for j := 0 to width
      invariant |row| == j
      invariant forall l :: 0 <= l < j ==>
                  row[l].Position == [((i * width + l) % width) as real, ((i * width + l) / width) as real]
                  && row[l].Weights == seq(dimensions, _ => 0.0)
      invariant forall l :: 0 <= l < j ==> fresh(row[l])
      invariant forall p, q :: 0 <= p < q < j ==> row[p] != row[q]
    {
      RowMajor(i, j, width);
      var node := new Node(j, i, dimensions);
      row := row + [node];
    }
  }

  /** No node occurs twice: each node differs from every earlier one. */
  ghost predicate Distinct(ns: seq<Node>)
    decreases |ns|
  {
    0 < |ns| ==> && Distinct(ns[..|ns| - 1])
                 && forall p :: 0 <= p < |ns| - 1 ==> ns[p] != ns[|ns| - 1]
  }

  /** Distinct nodes sit at different positions of the sequence. */
  lemma {:induction false} DistinctApart(ns: seq<Node>, p: int, q: int)
    requires Distinct(ns) && 0 <= p < |ns| && 0 <= q < |ns| && p != q
    ensures ns[p] != ns[q]
    decreases |ns|
  {
    var last := |ns| - 1;
    if p != last && q != last {
      DistinctApart(ns[..last], p, q);
    }
  }

  /** Node k of a distinct sequence differs from every other node. */
  lemma {:induction false} DistinctFrom(ns: seq<Node>, k: int)
    requires Distinct(ns) && 0 <= k < |ns|
    ensures forall j :: 0 <= j < |ns| && j != k ==> ns[j] != ns[k]
  {
    forall j | 0 <= j < |ns| && j != k
      ensures ns[j] != ns[k]
    {
      DistinctApart(ns, j, k);
    }
  }

  /** Pairwise different nodes form a distinct sequence. */
  lemma {:induction false} PairwiseDistinct(ns: seq<Node>)
    requires forall p, q :: 0 <= p < q < |ns| ==> ns[p] != ns[q]
    ensures Distinct(ns)
    decreases |ns|
  {
    if 0 < |ns| {
      PairwiseDistinct(ns[..|ns| - 1]);
    }
  }

  /** A node other than the only one picked is left out of the pick. */
  lemma {:induction false} LeftOut(ns: seq<Node>, nb: seq<Node>, k: int)
    requires |nb| == 1 && 0 <= k < |ns| && ns[k] != nb[0]
    ensures ns[k] in multiset(ns) - multiset(nb)
  {
    assert nb == [nb[0]];
    assert multiset(nb)[ns[k]] == 0;
  }

  /** What sort.Sort demands of a Less: a strict weak order. */
  ghost predicate StrictWeakOrder(less: (seq<real>, seq<real>) -> bool)
  {
    && (forall a, b :: less(a, b) ==> !less(b, a))
    && (forall a, b, c :: !less(a, b) && !less(b, c) ==> !less(a, c))
  }

  /** The weights of the nodes, in order. */
  ghost function Keys(s: seq<Node>): (ks: seq<seq<real>>)
    reads s
    ensures |ks| == |s|
    ensures forall k :: 0 <= k < |s| ==> ks[k] == s[k].Weights
  {
    seq(|s|, k requires 0 <= k < |s| reads s => s[k].Weights)
  }

  /** No later key in ks[..hi] is less than an earlier one. */
  ghost predicate SortedKeys(ks: seq<seq<real>>, less: (seq<real>, seq<real>) -> bool, hi: int)
    requires hi <= |ks|
  {
    forall p, q :: 0 <= p < q < hi ==> !less(ks[q], ks[p])
  }

  /** No later node is less than an earlier one. */
  ghost predicate Sorted(s: seq<Node>, less: (seq<real>, seq<real>) -> bool)
    reads s
  {
    forall p, q :: 0 <= p < q < |s| ==> !less(s[q].Weights, s[p].Weights)
  }

  /** While key i sinks to position j, the keys up to i are sorted apart
      from the one at j, which is not greater than any key to its right. */
  ghost predicate Sinking(ks: seq<seq<real>>, less: (seq<real>, seq<real>) -> bool, i: int, j: int)
  {
    && 0 <= j <= i < |ks|
    && (forall p, q :: 0 <= p < q <= i && p != j && q != j ==> !less(ks[q], ks[p]))
    && (forall q :: j < q <= i ==> !less(ks[q], ks[j]))
  }

  /** One swap of the sinking key with a greater left neighbour keeps Sinking. */
  lemma {:induction false} SinkStep(ks: seq<seq<real>>, less: (seq<real>, seq<real>) -> bool, i: int, j: int)
    requires StrictWeakOrder(less)
    requires Sinking(ks, less, i, j) && 0 < j && less(ks[j], ks[j - 1])
    ensures Sinking(ks[j := ks[j - 1]][j - 1 := ks[j]], less, i, j - 1)
  {
  }

  /** Once the sinking key is not less than its left neighbour, the keys
      up to i are sorted. */
  lemma {:induction false} SinkDone(ks: seq<seq<real>>, less: (seq<real>, seq<real>) -> bool, i: int, j: int)
    requires StrictWeakOrder(less)
    requires Sinking(ks, less, i, j) && (j == 0 || !less(ks[j], ks[j - 1]))
    ensures SortedKeys(ks, less, i + 1)
  {
    forall p, q | 0 <= p < q <= i
      ensures !less(ks[q], ks[p])
    {
      if q == j && p < j - 1 {
        assert !less(ks[j - 1], ks[p]);
      }
    }
  }

  /** Ordering by a real-valued key is a strict weak order. */
  lemma {:induction false} KeyOrderIsStrictWeak(less: (seq<real>, seq<real>) -> bool, key: seq<real> -> real)
    requires forall a, b :: less(a, b) == (key(a) < key(b))
    ensures StrictWeakOrder(less)
  {
  }

  /** The sort.Interface view of a lattice copy. The comparator sees the
      nodes' weights. */
  class LatticeSorter {
    const lattice: array<Node>
    const sortFunction: (seq<real>, seq<real>) -> bool

    constructor (lattice: array<Node>, sortFunction: (seq<real>, seq<real>) -> bool)
      ensures this.lattice == lattice && this.sortFunction == sortFunction
    {
      this.lattice := lattice;
      this.sortFunction := sortFunction;
    }

    function Len(): int
    {
      lattice.Length
    }

    /** Exchanges exactly positions i and j. */
    method Swap(i: int, j: int)
      requires 0 <= i < lattice.Length && 0 <= j < lattice.Length
      modifies lattice
      ensures lattice[..] == old(lattice[..])[i := old(lattice[j])][j := old(lattice[i])]
      ensures multiset(lattice[..]) == multiset(old(lattice[..]))
      ensures Keys(lattice[..]) == old(Keys(lattice[..]))[i := old(lattice[j].Weights)][j := old(lattice[i].Weights)]
    {
      ghost var ks := Keys(lattice[..]);
      ghost var ki, kj := lattice[i].Weights, lattice[j].Weights;
      lattice[i], lattice[j] := lattice[j], lattice[i];
      ghost var ks' := Keys(lattice[..]);
      assert forall k :: 0 <= k < |ks'| ==> ks'[k] == ks[i := kj][j := ki][k];
    }

    predicate Less(i: int, j: int)
      reads lattice, lattice[..]
      requires 0 <= i < lattice.Length && 0 <= j < lattice.Length
    {
      sortFunction(lattice[i].Weights, lattice[j].Weights)
    }
  }

  /** Sinks node i into the sorted prefix before it. */
  method Insert(ns: LatticeSorter, i: int)
    requires StrictWeakOrder(ns.sortFunction)
    requires 0 <= i < ns.lattice.Length
    requires SortedKeys(Keys(ns.lattice[..]), ns.sortFunction, i)
    modifies ns.lattice
    ensures multiset(ns.lattice[..]) == multiset(old(ns.lattice[..]))
    ensures SortedKeys(Keys(ns.lattice[..]), ns.sortFunction, i + 1)
  {
    var a, less := ns.lattice, ns.sortFunction;
    var j := i;
    while 0 < j && ns.Less(j, j - 1)
      invariant Sinking(Keys(a[..]), less, i, j)
      invariant multiset(a[..]) == multiset(old(a[..]))
    {
      SinkOnce(ns, i, j);
      j := j - 1;
    }
    SinkDone(Keys(a[..]), less, i, j);
  }

  /** One step of Insert: swaps the sinking node with its greater left
      neighbour. */
  method SinkOnce(ns: LatticeSorter, i: int, j: int)
    requires StrictWeakOrder(ns.sortFunction)
    requires Sinking(Keys(ns.lattice[..]), ns.sortFunction, i, j) && 0 < j && i < ns.lattice.Length
    requires ns.sortFunction(ns.lattice[j].Weights, ns.lattice[j - 1].Weights)
    modifies ns.lattice
    ensures multiset(ns.lattice[..]) == multiset(old(ns.lattice[..]))
    ensures Sinking(Keys(ns.lattice[..]), ns.sortFunction, i, j - 1)
  {
    ghost var ks := Keys(ns.lattice[..]);
    SinkStep(ks, ns.sortFunction, i, j);
    ns.Swap(j, j - 1);
  }

  /** Stands in for sort.Sort: an insertion sort through Len, Less and Swap. */
  method InsertionSort(ns: LatticeSorter)
    requires StrictWeakOrder(ns.sortFunction)
    modifies ns.lattice
    ensures multiset(ns.lattice[..]) == multiset(old(ns.lattice[..]))
    ensures Sorted(ns.lattice[..], ns.sortFunction)
  {
    var n := ns.Len();
    var i := 0;
    while i < n
      invariant 0 <= i <= n
      invariant multiset(ns.lattice[..]) == multiset(old(ns.lattice[..]))
      invariant SortedKeys(Keys(ns.lattice[..]), ns.sortFunction, i)
    {
      Insert(ns, i);
      i := i + 1;
    }
    ghost var ks := Keys(ns.lattice[..]);
    assert forall p, q :: 0 <= p < q < n ==> !ns.sortFunction(ks[q], ks[p]);
  }

  /** Lattice.Sort: sorts a fresh copy and leaves the receiver as it was. */
  method Sort(l: seq<Node>, sortFunction: (seq<real>, seq<real>) -> bool) returns (cpy: seq<Node>)
    requires StrictWeakOrder(sortFunction)
    ensures multiset(cpy) == multiset(l)
    ensures Sorted(cpy, sortFunction)
  {
    var a := new Node[|l|](k requires 0 <= k < |l| => l[k]);
    assert a[..] == l;
    var ns := new LatticeSorter(a, sortFunction);
    InsertionSort(ns);
    cpy := a[..];
  }
}

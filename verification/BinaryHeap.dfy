/** Binary heaps laid out in a sequence, least key first, while one place may be out of order. */
module BinaryHeap {

  function Parent(c: nat): nat
    requires c > 0
  {
    (c - 1) / 2
  }

  function Swap<T>(s: seq<T>, i: nat, j: nat): seq<T>
    requires i < |s| && j < |s|
  {
    s[i := s[j]][j := s[i]]
  }

  ghost predicate Heap(ks: seq<int>) {
    forall c | 0 < c < |ks| :: ks[Parent(c)] <= ks[c]
  }

  /** In order except that the key at `i` may be too large for its children. */
  ghost predicate HeapButDown(ks: seq<int>, i: nat) {
    && (forall c | 0 < c < |ks| && Parent(c) != i :: ks[Parent(c)] <= ks[c])
    && (forall c | 0 < c < |ks| && Parent(c) == i && i > 0 :: ks[Parent(i)] <= ks[c])
  }

  /** In order except that the key at `i` may be too small for its parent. */
  ghost predicate HeapButUp(ks: seq<int>, i: nat) {
    && (forall c | 0 < c < |ks| && c != i :: ks[Parent(c)] <= ks[c])
    && (forall c | 0 < c < |ks| && Parent(c) == i && i > 0 :: ks[Parent(i)] <= ks[c])
  }

  lemma {:induction false} RootIsLeast(ks: seq<int>, i: nat)
    requires Heap(ks) && i < |ks|
    ensures ks[0] <= ks[i]
    decreases i
  {
    if i > 0 {
      RootIsLeast(ks, Parent(i));
    }
  }

  /** Moving a key that is too large one place down, to its smaller child. */
  lemma SwapDown(ks: seq<int>, i: nat, child: nat)
    requires HeapButDown(ks, i) && 0 < child < |ks| && Parent(child) == i && ks[child] <= ks[i]
    requires forall c | 0 < c < |ks| && Parent(c) == i :: ks[child] <= ks[c]
    ensures HeapButDown(Swap(ks, i, child), child)
  {
    var t := Swap(ks, i, child);
    forall c | 0 < c < |ks| && Parent(c) != child ensures t[Parent(c)] <= t[c] {
      if c != child && c != i {
        assert t[c] == ks[c];
      }
    }
  }

  /** Moving a key that is too small one place up. */
  lemma SwapUp(ks: seq<int>, i: nat)
    requires HeapButUp(ks, i) && 0 < i < |ks| && ks[i] <= ks[Parent(i)]
    ensures HeapButUp(Swap(ks, Parent(i), i), Parent(i))
  {
    var p := Parent(i);
    var t := Swap(ks, p, i);
    forall c | 0 < c < |ks| && c != p ensures t[Parent(c)] <= t[c] {
      if c != i {
        assert t[c] == ks[c];
        assert ks[Parent(c)] <= ks[c];
        assert Parent(c) == i ==> ks[p] <= ks[c];
      }
    }
    forall c | 0 < c < |ks| && Parent(c) == p && p > 0 ensures t[Parent(p)] <= t[c] {
      assert ks[Parent(p)] <= ks[p];
      assert c != i ==> ks[p] <= ks[c];
    }
  }

  lemma RootMayChange(ks: seq<int>, ks': seq<int>)
    requires Heap(ks) && |ks'| == |ks| && forall i | 0 < i < |ks| :: ks'[i] == ks[i]
    ensures HeapButDown(ks', 0)
  {
    forall c | 0 < c < |ks'| && Parent(c) != 0 ensures ks'[Parent(c)] <= ks'[c] {
      assert ks[Parent(c)] <= ks[c];
    }
  }

  lemma DownDone(ks: seq<int>, i: nat)
    requires i < |ks| && HeapButDown(ks, i) && forall c | 0 < c < |ks| && Parent(c) == i :: ks[i] <= ks[c]
    ensures Heap(ks)
  {
  }

  lemma UpDone(ks: seq<int>, i: nat)
    requires i < |ks| && HeapButUp(ks, i) && (i > 0 ==> ks[Parent(i)] <= ks[i])
    ensures Heap(ks)
  {
  }

  lemma SwapKeeps<T>(s: seq<T>, i: nat, j: nat)
    requires i < |s| && j < |s|
    ensures multiset(Swap(s, i, j)) == multiset(s)
  {
  }
}

/** Sequences without repetition, reversal, and how they combine. */
module Sequences {

  ghost predicate Distinct<T>(s: seq<T>) {
    forall i, j | 0 <= i < j < |s| :: s[i] != s[j]
  }

  lemma DistinctTail<T>(w: T, q: seq<T>)
    requires Distinct([w] + q)
    ensures w !in q && Distinct(q)
  {
    assert ([w] + q)[0] == w;
    assert forall i | 0 <= i < |q| :: ([w] + q)[i + 1] == q[i];
  }

  lemma DistinctConcat<T>(a: seq<T>, b: seq<T>)
    requires Distinct(a) && Distinct(b) && forall x | x in a :: x !in b
    ensures Distinct(a + b)
  {
    assert forall i | 0 <= i < |a| :: (a + b)[i] in a;
    assert forall i | |a| <= i < |a + b| :: (a + b)[i] in b;
  }

  lemma {:induction false} SizeOfDistinct<T>(q: seq<T>, w: set<T>)
    requires Distinct(q) && forall t :: t in q <==> t in w
    ensures |q| == |w|
  {
    if q != [] {
      assert q == [q[0]] + q[1..];
      DistinctTail(q[0], q[1..]);
      SizeOfDistinct(q[1..], w - {q[0]});
    } else {
      assert w == {};
    }
  }

  /** A sequence is without repetition exactly if it has as many elements as places. */
  lemma {:induction false} DistinctBySize<T>(q: seq<T>)
    ensures |set x | x in q| <= |q|
    ensures Distinct(q) <==> |set x | x in q| == |q|
  {
    hide Distinct;
    if q != [] {
      var tail := set x | x in q[1..];
      DistinctBySize(q[1..]);
      assert q == [q[0]] + q[1..];
      assert (set x | x in q) == {q[0]} + tail;
      if Distinct(q) {
        DistinctTail(q[0], q[1..]);
      } else if Distinct(q[1..]) && q[0] !in q[1..] {
        OneIsDistinct(q[0]);
        DistinctConcat([q[0]], q[1..]);
      }
    } else {
      NothingIsDistinct<T>();
      assert (set x | x in q) == {};
    }
  }

  lemma ElementIn<T>(s: seq<T>, i: nat)
    requires i < |s|
    ensures s[i] in s
  {
  }

  lemma NoElements<T>(s: seq<T>)
    requires forall x :: x !in s
    ensures s == []
  {
    if |s| > 0 {
      ElementIn(s, 0);
    }
  }

  lemma NothingIsDistinct<T>()
    ensures Distinct<T>([])
  {
  }

  lemma OneIsDistinct<T>(x: T)
    ensures Distinct([x])
  {
  }

  lemma OneElement<T>(s: seq<T>, x: T)
    requires Distinct(s) && forall y :: y in s <==> y == x
    ensures s == [x]
  {
    assert x in s;
    if |s| > 1 {
      ElementIn(s, 0);
      ElementIn(s, 1);
    }
  }

  function Without<T>(s: seq<T>, i: nat): seq<T>
    requires i < |s|
  {
    s[..i] + s[i + 1..]
  }

  lemma WithoutTail<T>(s: seq<T>, i: nat)
    requires 0 < i < |s|
    ensures Without(s, i) == [s[0]] + Without(s[1..], i - 1)
  {
    assert s[..i] == [s[0]] + s[1..][..i - 1];
    Assoc([s[0]], s[1..][..i - 1], s[i + 1..]);
  }

  function Reverse<T>(s: seq<T>): (r: seq<T>)
    ensures |r| == |s|
    ensures forall i | 0 <= i < |s| :: r[i] == s[|s| - 1 - i]
  {
    if s == [] then [] else Reverse(s[1..]) + [s[0]]
  }

  lemma {:induction false} ReverseConcat<T>(a: seq<T>, b: seq<T>)
    ensures Reverse(a + b) == Reverse(b) + Reverse(a)
  {
    if a == [] {
      assert a + b == b;
    } else {
      assert (a + b)[1..] == a[1..] + b;
      ReverseConcat(a[1..], b);
    }
  }

  lemma ReverseKeeps<T>(s: seq<T>)
    ensures Distinct(s) ==> Distinct(Reverse(s))
    ensures forall a | a in Reverse(s) :: a in s
  {
  }

  lemma Assoc<T>(a: seq<T>, b: seq<T>, c: seq<T>)
    ensures (a + b) + c == a + (b + c)
  {
  }
}

/** The order of a list of distinct keys under a patch: what each item does to its key, and exactly which patches leave
    a list in the order into which they have brought it. */
module KeyMoves {
  import opened Sequences
  import opened PatchMode
  import opened PatchKeys

  /** What an item does if its element exists, and if it does not. */
  datatype Act = Keep | ToFront | ToBack | Remove | RefusePresent
  datatype Add = AddFront | AddBack | AddNothing | RefuseAbsent

  datatype Op = Op(key: string, act: Act, add: Add)

  function ActOf(modes: set<Mode>): Act {
    if Override in modes then Keep
    else if OverrideFront in modes then ToFront
    else if OverrideBack in modes then ToBack
    else if Skip in modes then Keep
    else if Delete in modes then Remove
    else if MergeMode in modes then Keep
    else RefusePresent
  }

  function AddOf(modes: set<Mode>): Add {
    if NewFront in modes then AddFront
    else if NewBack in modes then AddBack
    else if NewNever in modes then AddNothing
    else RefuseAbsent
  }

  ghost function Moved(ks: seq<string>, op: Op): seq<string> {
    if op.key !in ks then
      match op.add
      case AddFront => [op.key] + ks
      case AddBack => ks + [op.key]
      case _ => ks
    else
      match op.act
      case ToFront => [op.key] + Except(ks, op.key)
      case ToBack => Except(ks, op.key) + [op.key]
      case Remove => Except(ks, op.key)
      case _ => ks
  }

  ghost function MovedAll(ks: seq<string>, ops: seq<Op>): seq<string>
    decreases |ops|
  {
    if ops == [] then ks else MovedAll(Moved(ks, ops[0]), ops[1..])
  }

  lemma MovedAsModes(ks: seq<string>, k: string, modes: set<Mode>)
    ensures MovedKey(ks, k, modes) == Moved(ks, Op(k, ActOf(modes), AddOf(modes)))
  {
  }

  predicate Accepts(op: Op, present: bool) {
    if present then !op.act.RefusePresent? else !op.add.RefuseAbsent?
  }

  ghost predicate Fits(ks: seq<string>, ops: seq<Op>) {
    forall op | op in ops :: Accepts(op, op.key in ks)
  }

  // ---------- the condition ----------

  /** The item does not undo itself: it does not remove what it would add, nor move to one end what it adds at the
      other, nor refuse what it adds. */
  predicate Stable(op: Op) {
    match op.act
    case Keep => true
    case ToFront => !op.add.AddBack?
    case ToBack => !op.add.AddFront?
    case Remove => op.add.AddNothing?
    case RefusePresent => op.add.AddNothing?
  }

  /** The later item does not add at an end to which the earlier one moves without moving there itself. */
  predicate InOrder(earlier: Op, later: Op) {
    && !(earlier.act.ToFront? && later.act.Keep? && later.add.AddFront?)
    && !(earlier.act.ToBack? && later.act.Keep? && later.add.AddBack?)
  }

  ghost predicate Steady(ops: seq<Op>) {
    && (forall i | 0 <= i < |ops| :: Stable(ops[i]))
    && (forall i, j | 0 <= i < j < |ops| :: InOrder(ops[i], ops[j]))
  }

  ghost predicate OnceEach(ops: seq<Op>) {
    forall i, j | 0 <= i < j < |ops| :: ops[i].key != ops[j].key
  }

  /** Applying the operations to what they have made changes nothing. */
  ghost predicate Settles(ks: seq<string>, ops: seq<Op>) {
    Fits(MovedAll(ks, ops), ops) && MovedAll(MovedAll(ks, ops), ops) == MovedAll(ks, ops)
  }

  // ---------- looking at few keys at a time ----------

  ghost function Only(ks: seq<string>, s: set<string>): seq<string> {
    if ks == [] then [] else (if ks[0] in s then [ks[0]] else []) + Only(ks[1..], s)
  }

  ghost function Naming(ops: seq<Op>, s: set<string>): seq<Op> {
    if ops == [] then [] else (if ops[0].key in s then [ops[0]] else []) + Naming(ops[1..], s)
  }

  lemma {:induction false} OnlyMeaning(ks: seq<string>, s: set<string>)
    ensures forall k :: k in Only(ks, s) <==> k in ks && k in s
    ensures Distinct(ks) ==> Distinct(Only(ks, s))
  {
    if ks != [] {
      OnlyMeaning(ks[1..], s);
      assert ks == [ks[0]] + ks[1..];
      if Distinct(ks) {
        DistinctTail(ks[0], ks[1..]);
      }
    }
  }

  lemma {:induction false} NamingMeaning(ops: seq<Op>, s: set<string>)
    ensures forall op :: op in Naming(ops, s) <==> op in ops && op.key in s
  {
    if ops != [] {
      NamingMeaning(ops[1..], s);
      assert ops == [ops[0]] + ops[1..];
    }
  }

  lemma OnceTail(op: Op, ops: seq<Op>)
    ensures OnceEach([op] + ops) <==> OnceEach(ops) && forall o | o in ops :: o.key != op.key
  {
    var all := [op] + ops;
    assert forall i | 0 <= i < |ops| :: all[i + 1] == ops[i];
    if OnceEach(all) {
      forall i | 0 <= i < |ops| ensures ops[i].key != op.key {
        assert all[0].key != all[i + 1].key;
      }
      forall i, j | 0 <= i < j < |ops| ensures ops[i].key != ops[j].key {
        assert all[i + 1].key != all[j + 1].key;
      }
    }
  }

  lemma SteadyTail(op: Op, ops: seq<Op>)
    ensures Steady([op] + ops) <==> Stable(op) && Steady(ops) && forall o | o in ops :: InOrder(op, o)
  {
    var all := [op] + ops;
    assert forall i | 0 <= i < |ops| :: all[i + 1] == ops[i];
    if Steady(all) {
      assert all[0] == op;
      forall i, j | 0 <= i < j < |ops| ensures InOrder(ops[i], ops[j]) {
        assert InOrder(all[i + 1], all[j + 1]);
      }
      forall i | 0 <= i < |ops| ensures Stable(ops[i]) && InOrder(op, ops[i]) {
        assert Stable(all[i + 1]) && InOrder(all[0], all[i + 1]);
      }
    }
  }

  lemma {:induction false} NamingKeeps(ops: seq<Op>, s: set<string>)
    ensures OnceEach(ops) ==> OnceEach(Naming(ops, s))
    ensures Steady(ops) ==> Steady(Naming(ops, s))
  {
    hide Steady; hide OnceEach;
    if ops != [] {
      var rest := Naming(ops[1..], s);
      NamingKeeps(ops[1..], s);
      NamingMeaning(ops[1..], s);
      assert ops == [ops[0]] + ops[1..];
      OnceTail(ops[0], ops[1..]);
      SteadyTail(ops[0], ops[1..]);
      OnceTail(ops[0], rest);
      SteadyTail(ops[0], rest);
      assert [] + rest == rest;
    }
  }

  lemma {:induction false} OnlyConcat(a: seq<string>, b: seq<string>, s: set<string>)
    ensures Only(a + b, s) == Only(a, s) + Only(b, s)
  {
    if a == [] {
      assert a + b == b;
    } else {
      assert (a + b)[1..] == a[1..] + b;
      OnlyConcat(a[1..], b, s);
      Assoc(if a[0] in s then [a[0]] else [], Only(a[1..], s), Only(b, s));
    }
  }

  lemma OnlyOf(k: string, s: set<string>)
    ensures Only([k], s) == if k in s then [k] else []
  {
    assert [k][1..] == [];
  }

  lemma {:induction false} ExceptConcat(a: seq<string>, b: seq<string>, k: string)
    ensures Except(a + b, k) == Except(a, k) + Except(b, k)
  {
    if a == [] {
      assert a + b == b;
    } else {
      assert (a + b)[1..] == a[1..] + b;
      ExceptConcat(a[1..], b, k);
      Assoc(if a[0] == k then [] else [a[0]], Except(a[1..], k), Except(b, k));
    }
  }

  lemma {:induction false} OnlyExcept(ks: seq<string>, s: set<string>, k: string)
    ensures Only(Except(ks, k), s) == Except(Only(ks, s), k)
    ensures k !in s ==> Only(Except(ks, k), s) == Only(ks, s)
  {
    if ks != [] {
      OnlyExcept(ks[1..], s, k);
      var first, rest := [ks[0]], ks[1..];
      OnlyOf(ks[0], s);
      assert Except([ks[0]], k) == if ks[0] == k then [] else [ks[0]] by {
        assert [ks[0]][1..] == [];
      }
      ExceptConcat(if ks[0] in s then [ks[0]] else [], Only(rest, s), k);
      OnlyConcat(if ks[0] == k then [] else [ks[0]], Except(rest, k), s);
    }
  }

  /** An operation does to some of the keys what it does to all. */
  lemma OnlyMoved(ks: seq<string>, op: Op, s: set<string>)
    ensures Only(Moved(ks, op), s) == if op.key in s then Moved(Only(ks, s), op) else Only(ks, s)
  {
    hide Only; hide Except;
    OnlyMeaning(ks, s);
    OnlyOf(op.key, s);
    OnlyExcept(ks, s, op.key);
    OnlyConcat([op.key], ks, s);
    OnlyConcat(ks, [op.key], s);
    OnlyConcat([op.key], Except(ks, op.key), s);
    OnlyConcat(Except(ks, op.key), [op.key], s);
  }

  lemma {:induction false} OnlyMovedAll(ks: seq<string>, ops: seq<Op>, s: set<string>)
    ensures Only(MovedAll(ks, ops), s) == MovedAll(Only(ks, s), Naming(ops, s))
    decreases |ops|
  {
    hide Only; hide Moved;
    if ops != [] {
      OnlyMoved(ks, ops[0], s);
      OnlyMovedAll(Moved(ks, ops[0]), ops[1..], s);
      if ops[0].key in s {
        assert Naming(ops, s)[0] == ops[0] && Naming(ops, s)[1..] == Naming(ops[1..], s);
      } else {
        assert Naming(ops, s) == Naming(ops[1..], s);
      }
    }
  }

  lemma MovedIsDistinct(ks: seq<string>, op: Op)
    requires Distinct(ks)
    ensures Distinct(Moved(ks, op))
  {
    ExceptMeaning(ks, op.key);
    if op.key !in ks {
      DistinctConcat([op.key], ks);
      DistinctConcat(ks, [op.key]);
    } else {
      DistinctConcat([op.key], Except(ks, op.key));
      DistinctConcat(Except(ks, op.key), [op.key]);
    }
  }

  lemma {:induction false} MovedAllIsDistinct(ks: seq<string>, ops: seq<Op>)
    requires Distinct(ks)
    ensures Distinct(MovedAll(ks, ops))
    decreases |ops|
  {
    if ops != [] {
      MovedIsDistinct(ks, ops[0]);
      MovedAllIsDistinct(Moved(ks, ops[0]), ops[1..]);
    }
  }

  /** Two orders are the same if they are for every two keys. */
  lemma {:induction false} PairsDecide(p: seq<string>, q: seq<string>)
    requires Distinct(p) && Distinct(q) && forall a, b :: Only(p, {a, b}) == Only(q, {a, b})
    ensures p == q
    decreases |p|
  {
    forall k ensures k in p <==> k in q {
      OnlyMeaning(p, {k, k});
      OnlyMeaning(q, {k, k});
    }
    if p != [] {
      assert p[0] in q;
      var a, c := p[0], q[0];
      assert Only(p, {a, c})[0] == a && Only(q, {a, c})[0] == c;
      assert p == [a] + p[1..] && q == [a] + q[1..];
      DistinctTail(a, p[1..]);
      DistinctTail(a, q[1..]);
      forall x, y ensures Only(p[1..], {x, y}) == Only(q[1..], {x, y}) {
        assert Only(p, {x, y}) == Only(q, {x, y});
        if a in {x, y} {
          assert Only(p[1..], {x, y}) == Only(p, {x, y})[1..] && Only(q[1..], {x, y}) == Only(q, {x, y})[1..];
        } else {
          assert Only(p[1..], {x, y}) == Only(p, {x, y}) && Only(q[1..], {x, y}) == Only(q, {x, y});
        }
      }
      PairsDecide(p[1..], q[1..]);
    } else {
      NoElements(q);
    }
  }

  // ---------- at most two keys ----------

  lemma ExceptSmall(p: string, q: string)
    requires p != q
    ensures Except([], p) == [] && Except([p], p) == [] && Except([q], p) == [q]
    ensures Except([p, q], p) == [q] && Except([q, p], p) == [q]
  {
    assert [p][1..] == [] && [q][1..] == [] && [p, q][1..] == [q] && [q, p][1..] == [p];
  }

  predicate Small(r: seq<string>, p: string, q: string) {
    r == [] || r == [p] || r == [q] || r == [p, q] || r == [q, p]
  }

  lemma MovedSmall(r: seq<string>, op: Op, q: string)
    requires Small(r, op.key, q) && op.key != q
    ensures Small(Moved(r, op), op.key, q)
    ensures q in Moved(r, op) <==> q in r
    ensures op.key in r && op.act.Keep? ==> Moved(r, op) == r
    ensures op.key in r && op.act.ToFront? ==> Moved(r, op) == if q in r then [op.key, q] else [op.key]
    ensures op.key in r && op.act.ToBack? ==> Moved(r, op) == if q in r then [q, op.key] else [op.key]
    ensures op.key in r && op.act.Remove? ==> Moved(r, op) == if q in r then [q] else []
    ensures op.key in r && op.act.RefusePresent? ==> Moved(r, op) == r
    ensures op.key !in r && op.add.AddFront? ==> Moved(r, op) == if q in r then [op.key, q] else [op.key]
    ensures op.key !in r && op.add.AddBack? ==> Moved(r, op) == if q in r then [q, op.key] else [op.key]
    ensures op.key !in r && (op.add.AddNothing? || op.add.RefuseAbsent?) ==> Moved(r, op) == r
  {
    ExceptSmall(op.key, q);
  }

  lemma RunOfOne(r: seq<string>, op: Op)
    ensures MovedAll(r, [op]) == Moved(r, op)
  {
    assert [op][1..] == [];
  }

  lemma RunOfTwo(r: seq<string>, x: Op, y: Op)
    ensures MovedAll(r, [x, y]) == Moved(Moved(r, x), y)
  {
    assert [x, y][1..] == [y];
    RunOfOne(Moved(r, x), y);
  }

  lemma OneSettles(r: seq<string>, op: Op, q: string)
    requires Small(r, op.key, q) && op.key != q && Stable(op) && Accepts(op, op.key in r)
    ensures Settles(r, [op])
  {
    hide Moved; hide MovedAll;
    RunOfOne(r, op);
    RunOfOne(Moved(r, op), op);
    MovedSmall(r, op, q);
    MovedSmall(Moved(r, op), op, q);
  }

  lemma TwoSettle(r: seq<string>, x: Op, y: Op)
    requires Small(r, x.key, y.key) && x.key != y.key && Stable(x) && Stable(y) && InOrder(x, y)
    requires Accepts(x, x.key in r) && Accepts(y, y.key in r)
    ensures Settles(r, [x, y])
  {
    hide Moved; hide MovedAll;
    var r1, r2, r3 := Moved(r, x), Moved(Moved(r, x), y), Moved(Moved(Moved(r, x), y), x);
    RunOfTwo(r, x, y);
    RunOfTwo(r2, x, y);
    MovedSmall(r, x, y.key);
    MovedSmall(r1, y, x.key);
    MovedSmall(r2, x, y.key);
    MovedSmall(r3, y, x.key);
  }

  // ---------- steady patches settle ----------

  lemma SmallIs(r: seq<string>, a: string, b: string)
    requires Distinct(r) && forall k | k in r :: k == a || k == b
    ensures Small(r, a, b)
  {
    if |r| > 0 {
      ElementIn(r, 0);
      if |r| > 1 {
        ElementIn(r, 1);
        if |r| > 2 {
          ElementIn(r, 2);
        }
      }
    }
  }

  lemma PairSettles(r: seq<string>, ops: seq<Op>, a: string, b: string)
    requires Distinct(r) && forall k | k in r :: k == a || k == b
    requires OnceEach(ops) && Steady(ops) && Fits(r, ops) && forall op | op in ops :: op.key == a || op.key == b
    ensures Settles(r, ops)
  {
    SmallIs(r, a, b);
    if ops == [] {
    } else if |ops| == 1 {
      var op := ops[0];
      assert ops == [op] && op in ops;
      OneSettles(r, op, if a != b then (if op.key == a then b else a) else op.key + "'");
    } else {
      var x, y := ops[0], ops[1];
      assert x in ops && y in ops && InOrder(x, y) && x.key != y.key;
      if |ops| > 2 {
        ElementIn(ops, 2);
      }
      assert ops == [x, y];
      TwoSettle(r, x, y);
    }
  }

  lemma SettlesForSome(ks: seq<string>, ops: seq<Op>, a: string, b: string)
    requires Distinct(ks) && OnceEach(ops) && Steady(ops) && Fits(ks, ops)
    ensures Settles(Only(ks, {a, b}), Naming(ops, {a, b}))
  {
    hide Steady; hide OnceEach; hide Settles;
    var s := {a, b};
    OnlyMeaning(ks, s);
    NamingMeaning(ops, s);
    NamingKeeps(ops, s);
    PairSettles(Only(ks, s), Naming(ops, s), a, b);
  }

  /** A steady patch on which no key occurs twice brings the keys into an order that it leaves alone. */
  lemma SteadySettles(ks: seq<string>, ops: seq<Op>)
    requires Distinct(ks) && OnceEach(ops) && Steady(ops) && Fits(ks, ops)
    ensures Settles(ks, ops)
  {
    hide Steady; hide OnceEach; hide Only; hide Naming; hide MovedAll;
    var out := MovedAll(ks, ops);
    MovedAllIsDistinct(ks, ops);
    MovedAllIsDistinct(out, ops);
    forall a, b ensures Only(MovedAll(out, ops), {a, b}) == Only(out, {a, b}) {
      SettlesForSome(ks, ops, a, b);
      OnlyMovedAll(ks, ops, {a, b});
      OnlyMovedAll(out, ops, {a, b});
    }
    PairsDecide(MovedAll(out, ops), out);
    forall op | op in ops ensures Accepts(op, op.key in out) {
      var s := {op.key, op.key};
      SettlesForSome(ks, ops, op.key, op.key);
      OnlyMovedAll(ks, ops, s);
      OnlyMeaning(out, s);
      NamingMeaning(ops, s);
    }
  }

  // ---------- other patches do not ----------

  /** If some of the keys do not settle, the list does not. */
  lemma UnsettledForSome(ks: seq<string>, ops: seq<Op>, s: set<string>)
    requires !Settles(Only(ks, s), Naming(ops, s))
    ensures !Settles(ks, ops)
  {
    hide Only; hide Naming; hide MovedAll;
    var out := MovedAll(ks, ops);
    OnlyMovedAll(ks, ops, s);
    OnlyMovedAll(out, ops, s);
    OnlyMeaning(out, s);
    NamingMeaning(ops, s);
  }

  lemma OnlyJust(ks: seq<string>, s: set<string>, k: string)
    requires Distinct(ks) && forall x :: x in ks && x in s <==> x == k
    ensures Only(ks, s) == [k]
  {
    OnlyMeaning(ks, s);
    OneElement(Only(ks, s), k);
  }

  lemma OnlyNone(ks: seq<string>, s: set<string>)
    requires forall x | x in s :: x !in ks
    ensures Only(ks, s) == []
  {
    OnlyMeaning(ks, s);
    NoElements(Only(ks, s));
  }

  lemma NamingJust(ops: seq<Op>, i: nat, s: set<string>)
    requires OnceEach(ops) && i < |ops| && ops[i].key in s
    requires forall j | 0 <= j < |ops| && j != i :: ops[j].key !in s
    ensures Naming(ops, s) == [ops[i]]
  {
    NamingMeaning(ops, s);
    NamingKeeps(ops, s);
    var n := Naming(ops, s);
    ElementIn(ops, i);
    forall j | 0 <= j < |n| ensures n[j] == ops[i] {
      ElementIn(n, j);
    }
    assert ops[i] in n;
    assert |n| > 1 ==> n[0].key != n[1].key;
  }

  lemma NamingFirst(op: Op, ops: seq<Op>, j: nat)
    requires OnceEach([op] + ops) && j < |ops|
    ensures Naming([op] + ops, {op.key, ops[j].key}) == [op, ops[j]]
  {
    hide OnceEach;
    OnceTail(op, ops);
    SameKeySameOp(ops);
    forall l | 0 <= l < |ops| ensures ops[l].key != op.key {
      ElementIn(ops, l);
    }
    NamingJust(ops, j, {op.key, ops[j].key});
    assert ([op] + ops)[1..] == ops;
  }

  lemma {:induction false} NamingTwo(ops: seq<Op>, i: nat, j: nat)
    requires OnceEach(ops) && i < j < |ops|
    ensures Naming(ops, {ops[i].key, ops[j].key}) == [ops[i], ops[j]]
    decreases |ops|
  {
    assert ops == [ops[0]] + ops[1..];
    assert ops[1..][j - 1] == ops[j];
    if i == 0 {
      NamingFirst(ops[0], ops[1..], j - 1);
    } else {
      OnceTail(ops[0], ops[1..]);
      assert ops[1..][i - 1] == ops[i] && ops[0].key !in {ops[i].key, ops[j].key};
      NamingTwo(ops[1..], i - 1, j - 1);
    }
  }

  /** Every item can be accepted, with its element or without. */
  predicate Usable(op: Op) {
    !(op.act.RefusePresent? && op.add.RefuseAbsent?)
  }

  lemma UnstableUnsettled(op: Op, x: string)
    requires Usable(op) && !Stable(op) && x != op.key
    ensures op.act.Remove? ==> !Settles([op.key], [op])
    ensures op.act.RefusePresent? ==> !Settles([], [op])
    ensures op.act.ToFront? || op.act.ToBack? ==> !Settles([x], [op])
  {
    hide Moved; hide MovedAll;
    var r := if op.act.Remove? then [op.key] else if op.act.RefusePresent? then [] else [x];
    RunOfOne(r, op);
    RunOfOne(Moved(r, op), op);
    MovedSmall(r, op, x);
    MovedSmall(Moved(r, op), op, x);
    assert op in [op];
  }

  lemma DisorderUnsettled(a: Op, b: Op)
    requires !InOrder(a, b) && a.key != b.key
    ensures !Settles([a.key], [a, b])
  {
    hide Moved; hide MovedAll;
    var r := [a.key];
    var r1 := Moved(r, a);
    var r2 := Moved(r1, b);
    var r3 := Moved(r2, a);
    RunOfTwo(r, a, b);
    RunOfTwo(r2, a, b);
    MovedSmall(r, a, b.key);
    MovedSmall(r1, b, a.key);
    MovedSmall(r2, a, b.key);
    MovedSmall(r3, b, a.key);
  }

  /** A list on which the patch is accepted and does not settle, described by which keys it has; `x` is any key that
      the patch does not name. */
  ghost predicate Unsettles(ops: seq<Op>, present: set<string>, x: string, extra: bool) {
    && (forall op | op in ops :: Accepts(op, op.key in present))
    && forall ks |
         Distinct(ks) && (forall op | op in ops :: op.key in ks <==> op.key in present) && (x in ks <==> extra) ::
         !Settles(ks, ops)
  }

  /** The keys of all items that can do with an element. */
  ghost function Welcome(ops: seq<Op>): set<string> {
    set op | op in ops && !op.act.RefusePresent? :: op.key
  }

  lemma UnstableWitness(ops: seq<Op>, i: nat, x: string) returns (present: set<string>, extra: bool)
    requires OnceEach(ops) && (forall op | op in ops :: Usable(op) && op.key != x) && i < |ops| && !Stable(ops[i])
    ensures Unsettles(ops, present, x, extra)
  {
    var op := ops[i];
    var moves := op.act.ToFront? || op.act.ToBack?;
    present, extra := if moves then Welcome(ops) - {op.key} else Welcome(ops), moves;
    ElementIn(ops, i);
    SameKeySameOp(ops);
    forall ks | Distinct(ks) && (forall o | o in ops :: o.key in ks <==> o.key in present) && (x in ks <==> extra)
      ensures !Settles(ks, ops)
    {
      var s := if moves then {op.key, x} else {op.key};
      if op.act.Remove? {
        assert op.key in present;
        OnlyJust(ks, s, op.key);
      } else if moves {
        OnlyJust(ks, s, x);
      } else {
        OnlyNone(ks, s);
      }
      NamingJust(ops, i, s);
      UnstableUnsettled(op, x);
      UnsettledForSome(ks, ops, s);
    }
  }

  lemma SameKeySameOp(ops: seq<Op>)
    requires OnceEach(ops)
    ensures forall o, p | o in ops && p in ops && o.key == p.key :: o == p
    ensures forall o | o in ops :: o.key in Welcome(ops) <==> !o.act.RefusePresent?
    ensures forall i, j | 0 <= i < |ops| && 0 <= j < |ops| && i != j :: ops[i].key != ops[j].key
  {
    forall o, p | o in ops && p in ops && o.key == p.key ensures o == p {
      var i :| 0 <= i < |ops| && ops[i] == o;
      var j :| 0 <= j < |ops| && ops[j] == p;
      assert i == j;
    }
  }

  lemma DisorderWitness(ops: seq<Op>, i: nat, j: nat, x: string) returns (present: set<string>, extra: bool)
    requires OnceEach(ops) && (forall op | op in ops :: Usable(op) && op.key != x)
    requires i < j < |ops| && !InOrder(ops[i], ops[j])
    ensures Unsettles(ops, present, x, extra)
  {
    var a, b := ops[i], ops[j];
    present, extra := Welcome(ops) - {b.key}, false;
    ElementIn(ops, i);
    ElementIn(ops, j);
    SameKeySameOp(ops);
    forall ks | Distinct(ks) && (forall o | o in ops :: o.key in ks <==> o.key in present) && (x in ks <==> extra)
      ensures !Settles(ks, ops)
    {
      var s := {a.key, b.key};
      OnlyJust(ks, s, a.key);
      NamingTwo(ops, i, j);
      DisorderUnsettled(a, b);
      UnsettledForSome(ks, ops, s);
    }
  }

  lemma UnsteadyWitness(ops: seq<Op>, x: string) returns (present: set<string>, extra: bool)
    requires OnceEach(ops) && (forall op | op in ops :: Usable(op) && op.key != x) && !Steady(ops)
    ensures Unsettles(ops, present, x, extra)
  {
    if i :| 0 <= i < |ops| && !Stable(ops[i]) {
      present, extra := UnstableWitness(ops, i, x);
    } else {
      var i, j :| 0 <= i < j < |ops| && !InOrder(ops[i], ops[j]);
      present, extra := DisorderWitness(ops, i, j, x);
    }
  }

  // ---------- a patch applied to its own items ----------

  /** The keys of the operations, in order. */
  function KeysOf(ops: seq<Op>): (ks: seq<string>)
    ensures |ks| == |ops|
    ensures forall i | 0 <= i < |ops| :: ks[i] == ops[i].key
  {
    seq(|ops|, i requires 0 <= i < |ops| => ops[i].key)
  }

  /** Nothing is removed or refused, only the first item may move to the front, and those that move to the back are
      the last ones. */
  ghost predicate StaysInPlace(ops: seq<Op>) {
    && (forall i | 0 <= i < |ops| :: !ops[i].act.Remove? && !ops[i].act.RefusePresent?)
    && (forall i | 0 < i < |ops| :: !ops[i].act.ToFront?)
    && (forall i, j | 0 <= i < j < |ops| && ops[i].act.ToBack? :: ops[j].act.ToBack?)
  }

  lemma {:induction false} OnlyKeysOf(ops: seq<Op>, s: set<string>)
    ensures Only(KeysOf(ops), s) == KeysOf(Naming(ops, s))
  {
    if ops != [] {
      OnlyKeysOf(ops[1..], s);
      assert KeysOf(ops)[1..] == KeysOf(ops[1..]);
      var rest := Naming(ops[1..], s);
      assert KeysOf([ops[0]] + rest) == [ops[0].key] + KeysOf(rest);
      assert [] + rest == rest && [] + KeysOf(rest) == KeysOf(rest);
    }
  }

  lemma KeysOfDistinct(ops: seq<Op>)
    requires OnceEach(ops)
    ensures Distinct(KeysOf(ops))
  {
  }

  lemma OneStays(op: Op)
    ensures MovedAll([op.key], [op]) == [op.key] <==> !op.act.Remove?
  {
    var q := op.key + "'";
    RunOfOne([op.key], op);
    MovedSmall([op.key], op, q);
  }

  lemma TwoStay(x: Op, y: Op)
    requires x.key != y.key && !x.act.Remove? && !y.act.Remove? && !x.act.RefusePresent? && !y.act.RefusePresent?
    ensures MovedAll([x.key, y.key], [x, y]) == [x.key, y.key] <==> !y.act.ToFront? && (x.act.ToBack? ==> y.act.ToBack?)
  {
    hide Moved; hide MovedAll;
    var r := [x.key, y.key];
    RunOfTwo(r, x, y);
    MovedSmall(r, x, y.key);
    MovedSmall(Moved(r, x), y, x.key);
  }

  lemma OnlyAfter(ops: seq<Op>, s: set<string>)
    ensures Only(MovedAll(KeysOf(ops), ops), s) == MovedAll(KeysOf(Naming(ops, s)), Naming(ops, s))
  {
    OnlyMovedAll(KeysOf(ops), ops, s);
    OnlyKeysOf(ops, s);
  }

  lemma KeysOfTwo(x: Op, y: Op)
    ensures KeysOf([x, y]) == [x.key, y.key] && KeysOf([x]) == [x.key]
  {
  }

  /** What the condition says about any two keys. */
  lemma PairStays(ops: seq<Op>, a: string, b: string)
    requires OnceEach(ops) && StaysInPlace(ops)
    ensures Only(MovedAll(KeysOf(ops), ops), {a, b}) == Only(KeysOf(ops), {a, b})
  {
    hide OnceEach; hide StaysInPlace; hide Only; hide Naming; hide MovedAll; hide KeysOf;
    var s, n := {a, b}, Naming(ops, {a, b});
    OnlyAfter(ops, s);
    OnlyKeysOf(ops, s);
    NamingMeaning(ops, s);
    NamingKeeps(ops, s);
    NamingStays(ops, s);
    FewStay(n, a, b);
  }

  lemma FewStay(n: seq<Op>, a: string, b: string)
    requires OnceEach(n) && StaysInPlace(n) && forall op | op in n :: op.key == a || op.key == b
    ensures MovedAll(KeysOf(n), n) == KeysOf(n)
  {
    if n == [] {
    } else if |n| == 1 {
      assert n == [n[0]];
      KeysOfTwo(n[0], n[0]);
      OneStays(n[0]);
    } else {
      ElementIn(n, 0);
      ElementIn(n, 1);
      if |n| > 2 {
        ElementIn(n, 2);
      }
      assert n == [n[0], n[1]];
      KeysOfTwo(n[0], n[1]);
      TwoStay(n[0], n[1]);
    }
  }

  lemma StaysTail(op: Op, ops: seq<Op>)
    ensures StaysInPlace([op] + ops) <==>
              && !op.act.Remove? && !op.act.RefusePresent?
              && StaysInPlace(ops) && (forall o | o in ops :: !o.act.ToFront? && (op.act.ToBack? ==> o.act.ToBack?))
  {
    var all := [op] + ops;
    assert forall i | 0 <= i < |ops| :: all[i + 1] == ops[i];
    if StaysInPlace(all) {
      assert all[0] == op;
      forall i, j | 0 <= i < j < |ops| && ops[i].act.ToBack? ensures ops[j].act.ToBack? {
        assert all[i + 1].act.ToBack? ==> all[j + 1].act.ToBack?;
      }
    }
  }

  lemma {:induction false} NamingStays(ops: seq<Op>, s: set<string>)
    requires StaysInPlace(ops)
    ensures StaysInPlace(Naming(ops, s))
  {
    hide StaysInPlace;
    if ops != [] {
      var rest := Naming(ops[1..], s);
      assert ops == [ops[0]] + ops[1..];
      StaysTail(ops[0], ops[1..]);
      NamingStays(ops[1..], s);
      NamingMeaning(ops[1..], s);
      StaysTail(ops[0], rest);
      assert [] + rest == rest;
    } else {
      NothingStays();
    }
  }

  lemma NothingStays()
    ensures StaysInPlace([])
  {
  }

  /** Exactly which patches leave a list that has just their own items, in their order, as it is. */
  lemma StaysExactly(ops: seq<Op>)
    requires OnceEach(ops)
    ensures Fits(KeysOf(ops), ops) && MovedAll(KeysOf(ops), ops) == KeysOf(ops) <==> StaysInPlace(ops)
  {
    if StaysInPlace(ops) {
      StayFits(ops);
      KeysOfDistinct(ops);
      MovedAllIsDistinct(KeysOf(ops), ops);
      forall a, b ensures Only(MovedAll(KeysOf(ops), ops), {a, b}) == Only(KeysOf(ops), {a, b}) {
        PairStays(ops, a, b);
      }
      PairsDecide(MovedAll(KeysOf(ops), ops), KeysOf(ops));
    } else if Fits(KeysOf(ops), ops) && MovedAll(KeysOf(ops), ops) == KeysOf(ops) {
      forall i | 0 <= i < |ops| ensures !ops[i].act.Remove? && !ops[i].act.RefusePresent? {
        KeptOne(ops, i);
      }
      forall i, j | 0 <= i < j < |ops| ensures !ops[j].act.ToFront? && (ops[i].act.ToBack? ==> ops[j].act.ToBack?) {
        KeptTwo(ops, i, j);
      }
    }
  }

  lemma StayFits(ops: seq<Op>)
    requires StaysInPlace(ops)
    ensures Fits(KeysOf(ops), ops)
  {
    forall op | op in ops ensures Accepts(op, op.key in KeysOf(ops)) {
      var i :| 0 <= i < |ops| && ops[i] == op;
      ElementIn(KeysOf(ops), i);
    }
  }

  lemma KeptOne(ops: seq<Op>, i: nat)
    requires OnceEach(ops) && i < |ops| && Fits(KeysOf(ops), ops) && MovedAll(KeysOf(ops), ops) == KeysOf(ops)
    ensures !ops[i].act.Remove? && !ops[i].act.RefusePresent?
  {
    hide MovedAll; hide Only; hide Naming;
    var op := ops[i];
    ElementIn(ops, i);
    ElementIn(KeysOf(ops), i);
    assert forall j | 0 <= j < |ops| && j != i :: ops[j].key !in {op.key};
    NamingJust(ops, i, {op.key});
    OnlyAfter(ops, {op.key});
    OnlyKeysOf(ops, {op.key});
    KeysOfTwo(op, op);
    OneStays(op);
  }

  lemma KeptTwo(ops: seq<Op>, i: nat, j: nat)
    requires OnceEach(ops) && i < j < |ops| && Fits(KeysOf(ops), ops) && MovedAll(KeysOf(ops), ops) == KeysOf(ops)
    ensures !ops[j].act.ToFront? && (ops[i].act.ToBack? ==> ops[j].act.ToBack?)
  {
    hide MovedAll; hide Only; hide Naming;
    var x, y := ops[i], ops[j];
    KeptOne(ops, i);
    KeptOne(ops, j);
    NamingTwo(ops, i, j);
    OnlyAfter(ops, {x.key, y.key});
    OnlyKeysOf(ops, {x.key, y.key});
    KeysOfTwo(x, y);
    TwoStay(x, y);
  }
}

/** Exactly which patches may be applied twice: on every list they are accepted on, the second time changes nothing. */
module PatchSteady {
  import opened Wrappers
  import opened Sequences
  import opened Yaml
  import opened MergeMap
  import opened KeyedList
  import opened MergeList
  import opened PatchMode
  import opened PatchList
  import opened PatchKeys
  import opened KeyMoves

  /** Every item has a key and an acceptable tag, and no key occurs twice. */
  ghost predicate Proper(ext: seq<Node>, id: string) {
    AllKeyed(ext, id) && Distinct(Keys(ext, id)) && forall e | e in ext :: ModesOf(e).Ok?
  }

  ghost function OpOf(e: Node, id: string): Op
    requires ModesOf(e).Ok? && KeyOf(e, id).Some?
  {
    Op(KeyOf(e, id).value, ActOf(ModesOf(e).value), AddOf(ModesOf(e).value))
  }

  ghost function Ops(ext: seq<Node>, id: string): (ops: seq<Op>)
    requires AllKeyed(ext, id) && forall e | e in ext :: ModesOf(e).Ok?
    ensures |ops| == |ext|
    ensures forall i | 0 <= i < |ext| :: ext[i] in ext && ops[i] == OpOf(ext[i], id) && ops[i].key == Keys(ext, id)[i]
  {
    seq(|ext|, i requires 0 <= i < |ext| => assert ext[i] in ext; OpOf(ext[i], id))
  }

  /** Where the handler merges, merging once more does nothing. */
  ghost predicate MergesOnce(e: Node, id: string, h: Handler)
    requires ModesOf(e).Ok?
  {
    AsksOverride(ModesOf(e).value) && Explicit !in ModesOf(e).value ==> Idempotent(h, e, id)
  }

  lemma {:induction false} MovedAsOps(ks: seq<string>, ext: seq<Node>, id: string)
    requires AllKeyed(ext, id) && forall e | e in ext :: ModesOf(e).Ok?
    ensures MovedKeys(ks, ext, id) == MovedAll(ks, Ops(ext, id))
    decreases |ext|
  {
    hide ModesOf; hide MovedKey; hide Moved; hide ActOf; hide AddOf;
    if ext != [] {
      assert ext[0] in ext;
      var modes := ModesOf(ext[0]).value;
      MovedAsModes(ks, Keys(ext, id)[0], modes);
      MovedAsOps(Moved(ks, OpOf(ext[0], id)), ext[1..], id);
      assert Ops(ext, id)[1..] == Ops(ext[1..], id);
    }
  }

  lemma OnceEachKey(ext: seq<Node>, id: string)
    requires Proper(ext, id)
    ensures OnceEach(Ops(ext, id))
  {
    forall i, j | 0 <= i < j < |ext| ensures Ops(ext, id)[i].key != Ops(ext, id)[j].key {
      assert Keys(ext, id)[i] != Keys(ext, id)[j];
    }
  }

  // ---------- one key ----------

  lemma PatchOther(o: Option<Node>, e: Node, id: string, k: string, h: Handler)
    requires KeyOf(e, id) != Some(k)
    ensures StepPatch(o, e, id, k, h) == Ok(o)
  {
  }

  lemma {:induction false} FoldNever(o: Option<Node>, ext: seq<Node>, id: string, k: string, h: Handler)
    requires forall j | 0 <= j < |ext| :: KeyOf(ext[j], id) != Some(k)
    ensures FoldPatch(o, ext, id, k, h) == Ok(o)
    decreases |ext|
  {
    hide StepPatch; hide KeyOf;
    if ext != [] {
      PatchOther(o, ext[0], id, k, h);
      FoldNever(o, ext[1..], id, k, h);
    }
  }

  lemma {:induction false} FoldAt(o: Option<Node>, ext: seq<Node>, id: string, i: nat, k: string, h: Handler)
    requires i < |ext| && forall j | 0 <= j < |ext| && j != i :: KeyOf(ext[j], id) != Some(k)
    ensures FoldPatch(o, ext, id, k, h) == StepPatch(o, ext[i], id, k, h)
    decreases |ext|
  {
    hide StepPatch; hide KeyOf;
    if i == 0 {
      var first := StepPatch(o, ext[0], id, k, h);
      if first.Ok? {
        FoldNever(first.value, ext[1..], id, k, h);
      }
    } else {
      PatchOther(o, ext[0], id, k, h);
      FoldAt(o, ext[1..], id, i - 1, k, h);
    }
  }

  lemma FoldOnce(o: Option<Node>, ext: seq<Node>, id: string, i: nat, h: Handler)
    requires AllKeyed(ext, id) && Distinct(Keys(ext, id)) && i < |ext|
    ensures var k := Keys(ext, id)[i]; FoldPatch(o, ext, id, k, h) == StepPatch(o, ext[i], id, k, h)
  {
    hide FoldPatch; hide StepPatch;
    var ks := Keys(ext, id);
    forall j | 0 <= j < |ext| && j != i ensures KeyOf(ext[j], id) != Some(ks[i]) {
      assert if i < j then ks[i] != ks[j] else ks[j] != ks[i];
    }
    FoldAt(o, ext, id, i, ks[i], h);
  }

  lemma NotNamed(ext: seq<Node>, id: string, k: string)
    requires AllKeyed(ext, id)
    ensures k in NamesOf(ext, id) <==> k in Keys(ext, id)
  {
    if k in NamesOf(ext, id) {
      var e :| e in ext && KeyOf(e, id) == Some(k);
      var i :| 0 <= i < |ext| && ext[i] == e;
      assert Keys(ext, id)[i] == k;
    }
    if k in Keys(ext, id) {
      var i :| 0 <= i < |ext| && Keys(ext, id)[i] == k;
      assert ext[i] in ext;
    }
  }

  /** A keyed node compared with itself stays what it is. */
  lemma CompareAgain(v: Node, e: Node, id: string)
    requires KeyOf(e, id).Some? && KeyOf(v, id) == KeyOf(e, id)
    ensures CompareAndReplace(v, e).Ok?
    ensures CompareAndReplace(CompareAndReplace(v, e).value, e) == CompareAndReplace(v, e)
    ensures CompareAndReplace(e, e) == Ok(e)
  {
    MergeSelf(e);
    MergeIdempotent(v, e);
  }

  /** Applied to what it has made of an element, a stable item changes nothing. */
  lemma StepAgain(o: Option<Node>, e: Node, id: string, k: string, h: Handler)
    requires KeyOf(e, id) == Some(k) && (o.Some? ==> KeyOf(o.value, id) == Some(k))
    requires StepPatch(o, e, id, k, h).Ok? && Stable(OpOf(e, id)) && MergesOnce(e, id, h)
    ensures StepPatch(StepPatch(o, e, id, k, h).value, e, id, k, h) == StepPatch(o, e, id, k, h)
  {
    hide ModesOf; hide CompareAndReplace;
    CompareAgain(e, e, id);
    if o.Some? {
      CompareAgain(o.value, e, id);
    }
  }

  lemma StepAccepts(o: Option<Node>, e: Node, id: string, k: string, h: Handler)
    requires KeyOf(e, id) == Some(k) && ModesOf(e).Ok?
    ensures StepPatch(o, e, id, k, h).Ok? ==> Accepts(OpOf(e, id), o.Some?)
    ensures Accepts(OpOf(e, id), o.Some?) && (o.Some? ==> o.value == e) && MergesOnce(e, id, h) ==>
              StepPatch(o, e, id, k, h).Ok?
  {
    hide ModesOf; hide CompareAndReplace;
    CompareAgain(e, e, id);
  }

  // ---------- the whole list ----------

  ghost predicate Accepted(items: seq<Node>, ext: seq<Node>, id: string, h: Handler) {
    AllKeyed(items, id) && Distinct(Keys(items, id)) && PatchAll(items, ext, id, h).Ok?
  }

  /** An accepted patch is accepted key by key. */
  lemma AcceptedFits(items: seq<Node>, ext: seq<Node>, id: string, h: Handler)
    requires KeepsKey(h, id) && Proper(ext, id) && Accepted(items, ext, id, h)
    ensures forall i | 0 <= i < |ext| ::
              StepPatch(Lookup(items, id, Keys(ext, id)[i]), ext[i], id, Keys(ext, id)[i], h).Ok?
    ensures Fits(Keys(items, id), Ops(ext, id))
  {
    hide KeepsKey; hide ModesOf; hide PatchAll; hide StepPatch; hide FoldPatch; hide Lookup; hide ActOf;
    hide AddOf; hide Accepts;
    PatchAccepted(items, ext, id, h);
    forall i | 0 <= i < |ext|
      ensures StepPatch(Lookup(items, id, Keys(ext, id)[i]), ext[i], id, Keys(ext, id)[i], h).Ok?
      ensures Accepts(Ops(ext, id)[i], Keys(ext, id)[i] in Keys(items, id))
    {
      var k := Keys(ext, id)[i];
      ElementIn(ext, i);
      NotNamed(ext, id, k);
      ElementIn(Keys(ext, id), i);
      FoldOnce(Lookup(items, id, k), ext, id, i, h);
      StepAccepts(Lookup(items, id, k), ext[i], id, k, h);
      LookupNone(items, id, k);
    }
    forall op | op in Ops(ext, id) ensures Accepts(op, op.key in Keys(items, id)) {
      var i :| 0 <= i < |ext| && Ops(ext, id)[i] == op;
    }
  }

  /** Lists with the same distinct keys in the same order and the same element for each are the same. */
  lemma SameLists(a: seq<Node>, b: seq<Node>, id: string)
    requires AllKeyed(a, id) && AllKeyed(b, id) && Distinct(Keys(a, id)) && Keys(a, id) == Keys(b, id)
    requires forall k :: Lookup(a, id, k) == Lookup(b, id, k)
    ensures a == b
  {
    assert |a| == |Keys(a, id)| == |Keys(b, id)| == |b|;
    forall i | 0 <= i < |a| ensures a[i] == b[i] {
      LookupDistinct(a, id, i);
      LookupDistinct(b, id, i);
    }
  }

  /** What the items make of each key, they leave alone the second time. */
  lemma ValuesAgain(items: seq<Node>, ext: seq<Node>, id: string, h: Handler, k: string)
    requires KeepsKey(h, id) && Proper(ext, id) && Accepted(items, ext, id, h) && Steady(Ops(ext, id))
    requires forall e | e in ext :: MergesOnce(e, id, h)
    ensures var o := Lookup(PatchAll(items, ext, id, h).value, id, k); FoldPatch(o, ext, id, k, h) == Ok(o)
  {
    hide KeepsKey; hide ModesOf; hide PatchAll; hide StepPatch; hide FoldPatch; hide Lookup; hide MergesOnce;
    hide ActOf; hide AddOf;
    var o, o' := Lookup(items, id, k), Lookup(PatchAll(items, ext, id, h).value, id, k);
    PatchedValue(items, ext, id, h, k);
    NotNamed(ext, id, k);
    if i :| 0 <= i < |ext| && Keys(ext, id)[i] == k {
      ElementIn(ext, i);
      assert Stable(Ops(ext, id)[i]);
      FoldOnce(o, ext, id, i, h);
      FoldOnce(o', ext, id, i, h);
      LookupKey(items, id, k);
      StepAgain(o, ext[i], id, k, h);
    } else {
      FoldUnnamed(o', ext, id, k, h);
    }
  }

  /** A steady patch on which no key occurs twice does the same twice as once. */
  lemma SteadyTwice(items: seq<Node>, ext: seq<Node>, id: string, h: Handler)
    requires KeepsKey(h, id) && Proper(ext, id) && Accepted(items, ext, id, h) && Steady(Ops(ext, id))
    requires forall e | e in ext :: MergesOnce(e, id, h)
    ensures PatchAll(PatchAll(items, ext, id, h).value, ext, id, h) == PatchAll(items, ext, id, h)
  {
    hide KeepsKey; hide ModesOf; hide PatchAll; hide FoldPatch; hide Lookup; hide Steady; hide MergesOnce;
    hide Distinct;
    var out, ops := PatchAll(items, ext, id, h).value, Ops(ext, id);
    PatchedKeys(items, ext, id, h);
    MovedAsOps(Keys(items, id), ext, id);
    forall k ensures FoldPatch(Lookup(out, id, k), ext, id, k, h) == Ok(Lookup(out, id, k)) {
      ValuesAgain(items, ext, id, h, k);
    }
    PatchAccepted(out, ext, id, h);
    var again := PatchAll(out, ext, id, h).value;
    PatchedKeys(out, ext, id, h);
    MovedAsOps(Keys(out, id), ext, id);
    AcceptedFits(items, ext, id, h);
    OnceEachKey(ext, id);
    SteadySettles(Keys(items, id), ops);
    forall k ensures Lookup(again, id, k) == Lookup(out, id, k) {
      PatchedValue(out, ext, id, h, k);
    }
    SameLists(again, out, id);
  }

  // ---------- all other patches fail on some list ----------

  /** A node with the key. */
  function Keyed(id: string, key: string): (n: Node)
    ensures KeyOf(n, id) == Some(key)
  {
    if id == "" then Scalar("", key) else Map("", map[id := Scalar("", key)])
  }

  /** A text longer than all of them. */
  function LongerThan(ks: seq<string>): (r: string)
    ensures forall k | k in ks :: |k| < |r|
  {
    if ks == [] then "x"
    else
      var r := LongerThan(ks[1..]);
      assert ks == [ks[0]] + ks[1..];
      if |ks[0]| < |r| then r else ks[0] + "x"
  }

  /** The items of the patch with these keys, as elements. */
  ghost function Chosen(ext: seq<Node>, id: string, present: set<string>): seq<Node> {
    if ext == [] then []
    else (if Named(ext[0], id, present) then [ext[0]] else []) + Chosen(ext[1..], id, present)
  }

  lemma PrefixKeys(e: Node, rest: seq<Node>, id: string)
    requires KeyOf(e, id).Some? && AllKeyed(rest, id)
    ensures AllKeyed([e] + rest, id) && Keys([e] + rest, id) == [KeyOf(e, id).value] + Keys(rest, id)
    ensures Distinct(Keys([e] + rest, id)) <==> Distinct(Keys(rest, id)) && KeyOf(e, id).value !in Keys(rest, id)
  {
    hide Distinct;
    var k := KeyOf(e, id).value;
    assert Keys([e] + rest, id) == [k] + Keys(rest, id);
    if Distinct([k] + Keys(rest, id)) {
      DistinctTail(k, Keys(rest, id));
    } else if Distinct(Keys(rest, id)) && k !in Keys(rest, id) {
      OneIsDistinct(k);
      DistinctConcat([k], Keys(rest, id));
    }
  }

  lemma {:induction false} ChosenMeaning(ext: seq<Node>, id: string, present: set<string>)
    requires AllKeyed(ext, id)
    ensures forall e | e in Chosen(ext, id, present) :: e in ext && Named(e, id, present)
    ensures AllKeyed(Chosen(ext, id, present), id)
    ensures forall k :: k in Keys(Chosen(ext, id, present), id) <==> k in Keys(ext, id) && k in present
    ensures Distinct(Keys(ext, id)) ==> Distinct(Keys(Chosen(ext, id, present), id))
  {
    hide Distinct;
    if ext != [] {
      var rest := Chosen(ext[1..], id, present);
      hide Keys;
      assert ext == [ext[0]] + ext[1..];
      assert forall i | 0 < i < |ext| :: ext[i] == ext[1..][i - 1];
      ChosenMeaning(ext[1..], id, present);
      PrefixKeys(ext[0], ext[1..], id);
      PrefixKeys(ext[0], rest, id);
      assert [] + rest == rest;
    }
  }

  /** A list with just these elements, and perhaps one more. */
  ghost function Listed(ext: seq<Node>, id: string, present: set<string>, x: string, extra: bool): seq<Node> {
    (if extra then [Keyed(id, x)] else []) + Chosen(ext, id, present)
  }

  lemma ListedMeaning(ext: seq<Node>, id: string, present: set<string>, x: string, extra: bool)
    requires AllKeyed(ext, id) && Distinct(Keys(ext, id)) && x !in Keys(ext, id)
    ensures var items := Listed(ext, id, present, x, extra);
            && AllKeyed(items, id) && Distinct(Keys(items, id))
            && (forall e | e in items :: KeyOf(e, id) == Some(x) || e in ext)
            && (forall k | k in Keys(ext, id) :: k in Keys(items, id) <==> k in present)
            && (x in Keys(items, id) <==> extra)
  {
    hide Distinct; hide Chosen;
    var chosen := Chosen(ext, id, present);
    ChosenMeaning(ext, id, present);
    if extra {
      KeysConcat([Keyed(id, x)], chosen, id);
      assert Keys([Keyed(id, x)], id) == [x];
      OneIsDistinct(x);
      DistinctConcat([x], Keys(chosen, id));
    } else {
      assert [] + chosen == chosen;
    }
  }

  lemma OwnElement(items: seq<Node>, ext: seq<Node>, id: string, i: nat)
    requires AllKeyed(ext, id) && Distinct(Keys(ext, id)) && i < |ext| && AllKeyed(items, id)
    requires forall e | e in items :: KeyOf(e, id) != KeyOf(ext[i], id) || e in ext
    ensures var o := Lookup(items, id, Keys(ext, id)[i]);
            (o.Some? <==> Keys(ext, id)[i] in Keys(items, id)) && (o.Some? ==> o.value == ext[i])
  {
    hide Distinct;
    var k := Keys(ext, id)[i];
    LookupNone(items, id, k);
    LookupKey(items, id, k);
    LookupIn(items, id, k);
    var o := Lookup(items, id, k);
    if o.Some? {
      var j :| 0 <= j < |ext| && ext[j] == o.value;
      SameIndex(Keys(ext, id), i, j);
    }
  }

  lemma SameIndex(ks: seq<string>, i: nat, j: nat)
    requires Distinct(ks) && i < |ks| && j < |ks| && ks[i] == ks[j]
    ensures i == j
  {
  }

  lemma {:induction false} LookupIn(items: seq<Node>, id: string, k: string)
    ensures Lookup(items, id, k).Some? ==> Lookup(items, id, k).value in items
  {
    if items != [] {
      LookupIn(items[1..], id, k);
    }
  }

  /** Any choice of elements that suits the items makes a list on which the patch is accepted. */
  lemma ListedIsAccepted(ext: seq<Node>, id: string, h: Handler, present: set<string>, x: string, extra: bool)
    requires KeepsKey(h, id) && Proper(ext, id) && (forall e | e in ext :: MergesOnce(e, id, h)) && x !in Keys(ext, id)
    requires forall op | op in Ops(ext, id) :: Accepts(op, op.key in present)
    ensures Accepted(Listed(ext, id, present, x, extra), ext, id, h)
  {
    hide KeepsKey; hide ModesOf; hide PatchAll; hide StepPatch; hide FoldPatch; hide Lookup; hide MergesOnce;
    hide Listed;
    hide ActOf; hide AddOf; hide Distinct; hide Accepts;
    var items := Listed(ext, id, present, x, extra);
    ListedMeaning(ext, id, present, x, extra);
    forall k | k in NamesOf(ext, id) ensures FoldPatch(Lookup(items, id, k), ext, id, k, h).Ok? {
      NotNamed(ext, id, k);
      var i :| 0 <= i < |ext| && Keys(ext, id)[i] == k;
      ElementIn(ext, i);
      ElementIn(Ops(ext, id), i);
      OwnElement(items, ext, id, i);
      StepAccepts(Lookup(items, id, k), ext[i], id, k, h);
      FoldOnce(Lookup(items, id, k), ext, id, i, h);
    }
    PatchAccepted(items, ext, id, h);
  }

  /** A list on which the patch is accepted and whose keys do not settle is changed the second time, or the patch is
      refused then. */
  lemma UnsettledChanges(items: seq<Node>, ext: seq<Node>, id: string, h: Handler)
    requires KeepsKey(h, id) && Proper(ext, id) && Accepted(items, ext, id, h)
    requires !Settles(Keys(items, id), Ops(ext, id))
    ensures PatchAll(PatchAll(items, ext, id, h).value, ext, id, h) != PatchAll(items, ext, id, h)
  {
    hide KeepsKey; hide ModesOf; hide PatchAll; hide MovedAll; hide Fits; hide Distinct;
    var out := PatchAll(items, ext, id, h).value;
    PatchedKeys(items, ext, id, h);
    MovedAsOps(Keys(items, id), ext, id);
    if PatchAll(out, ext, id, h).Ok? {
      PatchedKeys(out, ext, id, h);
      MovedAsOps(Keys(out, id), ext, id);
      AcceptedFits(out, ext, id, h);
    }
  }

  lemma UnsteadyFails(ext: seq<Node>, id: string, h: Handler) returns (items: seq<Node>)
    requires KeepsKey(h, id) && Proper(ext, id) && (forall e | e in ext :: MergesOnce(e, id, h))
    requires (forall op | op in Ops(ext, id) :: Usable(op)) && !Steady(Ops(ext, id))
    ensures Accepted(items, ext, id, h)
    ensures PatchAll(PatchAll(items, ext, id, h).value, ext, id, h) != PatchAll(items, ext, id, h)
  {
    hide KeepsKey; hide ModesOf; hide PatchAll; hide MergesOnce; hide Steady; hide Settles; hide Listed; hide Distinct;
    var ops, x := Ops(ext, id), LongerThan(Keys(ext, id));
    forall op | op in ops ensures op.key != x && op.key in Keys(ext, id) {
      var i :| 0 <= i < |ops| && ops[i] == op;
      ElementIn(Keys(ext, id), i);
    }
    OnceEachKey(ext, id);
    var present, extra := UnsteadyWitness(ops, x);
    items := Listed(ext, id, present, x, extra);
    ListedMeaning(ext, id, present, x, extra);
    ListedIsAccepted(ext, id, h, present, x, extra);
    UnsettledChanges(items, ext, id, h);
  }

  /** Exactly which patches are idempotent.  No key occurs twice, every item can be accepted, and untagged items merge
      idempotently.  Then on all lists of distinct keys on which the patch is accepted, the second application changes
      nothing, exactly if
      - no item deletes an element unless it says `new.never`, nor only adds it, nor moves it to the end opposite to
        the one where it adds it; and
      - no item that adds at an end without moving there comes after one that moves to this end. */
  lemma IdempotentExactly(ext: seq<Node>, id: string, h: Handler)
    requires KeepsKey(h, id) && Proper(ext, id) && (forall e | e in ext :: MergesOnce(e, id, h))
    requires forall op | op in Ops(ext, id) :: Usable(op)
    ensures (forall items | Accepted(items, ext, id, h) ::
               PatchAll(PatchAll(items, ext, id, h).value, ext, id, h) == PatchAll(items, ext, id, h))
            <==> Steady(Ops(ext, id))
  {
    hide KeepsKey; hide ModesOf; hide PatchAll; hide MergesOnce; hide Steady;
    if Steady(Ops(ext, id)) {
      forall items | Accepted(items, ext, id, h)
        ensures PatchAll(PatchAll(items, ext, id, h).value, ext, id, h) == PatchAll(items, ext, id, h)
      {
        SteadyTwice(items, ext, id, h);
      }
    } else {
      var items := UnsteadyFails(ext, id, h);
    }
  }

  /** The same for the handler that merges maps, for which merging once more never does anything. */
  lemma IdempotentWithMaps(ext: seq<Node>, id: string)
    requires Proper(ext, id) && forall op | op in Ops(ext, id) :: Usable(op)
    ensures (forall items | Accepted(items, ext, id, MERGE_MAP) ::
               PatchAll(PatchAll(items, ext, id, MERGE_MAP).value, ext, id, MERGE_MAP) ==
                   PatchAll(items, ext, id, MERGE_MAP))
            <==> Steady(Ops(ext, id))
  {
    hide KeepsKey; hide ModesOf; hide PatchAll; hide Idempotent; hide Steady;
    MergeMapKeepsKey(id);
    forall e | e in ext ensures MergesOnce(e, id, MERGE_MAP) {
      MergeMapIdempotent(e, id);
    }
    IdempotentExactly(ext, id, MERGE_MAP);
  }
}

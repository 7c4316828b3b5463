/** What a patch does to the order of a list and to the value of each key. */
module PatchKeys {
  import opened Wrappers
  import opened Sequences
  import opened Yaml
  import opened MergeMap
  import opened KeyedList
  import opened MergeList
  import opened PatchMode
  import opened PatchList

  // ---------- elements that the patch does not name ----------

  ghost function NamesOf(ext: seq<Node>, id: string): set<string> {
    set e | e in ext && KeyOf(e, id).Some? :: KeyOf(e, id).value
  }

  ghost predicate Named(n: Node, id: string, names: set<string>) {
    KeyOf(n, id).Some? && KeyOf(n, id).value in names
  }

  /** The elements whose keys are not in `names`, in order. */
  ghost function Others(items: seq<Node>, id: string, names: set<string>): seq<Node> {
    if items == [] then []
    else (if Named(items[0], id, names) then [] else [items[0]]) + Others(items[1..], id, names)
  }

  lemma {:induction false} OthersConcat(a: seq<Node>, b: seq<Node>, id: string, names: set<string>)
    ensures Others(a + b, id, names) == Others(a, id, names) + Others(b, id, names)
  {
    if a == [] {
      assert a + b == b;
    } else {
      assert (a + b)[1..] == a[1..] + b;
      OthersConcat(a[1..], b, id, names);
      Assoc(if Named(a[0], id, names) then [] else [a[0]], Others(a[1..], id, names), Others(b, id, names));
    }
  }

  lemma OthersOfNamed(n: Node, id: string, names: set<string>)
    requires Named(n, id, names)
    ensures Others([n], id, names) == []
  {
    assert [n][1..] == [];
  }

  lemma OthersWithout(items: seq<Node>, i: nat, id: string, names: set<string>)
    requires i < |items| && Named(items[i], id, names)
    ensures Others(Without(items, i), id, names) == Others(items, id, names)
  {
    hide Others; hide Named;
    assert items == items[..i] + [items[i]] + items[i + 1..];
    OthersConcat(items[..i] + [items[i]], items[i + 1..], id, names);
    OthersConcat(items[..i], [items[i]], id, names);
    OthersOfNamed(items[i], id, names);
    OthersConcat(items[..i], items[i + 1..], id, names);
  }

  lemma OthersReplaced(items: seq<Node>, i: nat, v: Node, id: string, names: set<string>)
    requires i < |items| && Named(items[i], id, names) && Named(v, id, names)
    ensures Others(items[i := v], id, names) == Others(items, id, names)
  {
    OthersWithout(items, i, id, names);
    OthersWithout(items[i := v], i, id, names);
    assert Without(items[i := v], i) == Without(items, i);
  }

  lemma OthersAdded(items: seq<Node>, e: Node, id: string, names: set<string>)
    requires Named(e, id, names)
    ensures Others([e] + items, id, names) == Others(items, id, names) == Others(items + [e], id, names)
  {
    OthersOfNamed(e, id, names);
    OthersConcat([e], items, id, names);
    OthersConcat(items, [e], id, names);
  }

  /** What replaces an element has its key. */
  lemma ReplacementKeepsKey(v: Node, e: Node, modes: set<Mode>, id: string, h: Handler)
    requires KeepsKey(h, id) && KeyOf(e, id).Some? && KeyOf(v, id) == KeyOf(e, id)
    ensures Overridden(v, e, modes, h).Ok? ==> KeyOf(Overridden(v, e, modes, h).value, id) == KeyOf(e, id)
    ensures CompareAndReplace(v, e).Ok? ==> KeyOf(CompareAndReplace(v, e).value, id) == KeyOf(e, id)
  {
    MergeMapKeepsKey(id);
    if v.Map? && e.Map? {
      assert MERGE_MAP(v, e) == Ok(Merge(v, e));
    }
  }

  lemma PatchOneOthers(items: seq<Node>, e: Node, id: string, h: Handler, names: set<string>)
    requires KeepsKey(h, id) && PatchOne(items, e, id, h).Ok? && Named(e, id, names)
    ensures Others(PatchOne(items, e, id, h).value, id, names) == Others(items, id, names)
  {
    hide KeepsKey; hide Others; hide CompareAndReplace; hide Overridden; hide ModesOf; hide Find; hide Without;
    var i := Find(items, id, KeyOf(e, id).value).value;
    if i == |items| {
      OthersAdded(items, e, id, names);
    } else {
      var v, modes := items[i], ModesOf(e).value;
      ReplacementKeepsKey(v, e, modes, id, h);
      OthersWithout(items, i, id, names);
      if AsksOverride(modes) {
        var v' := Overridden(v, e, modes, h).value;
        OthersReplaced(items, i, v', id, names);
        OthersAdded(Without(items, i), v', id, names);
      } else if MergeMode in modes && CompareAndReplace(v, e).Ok? {
        OthersReplaced(items, i, CompareAndReplace(v, e).value, id, names);
      }
    }
  }

  lemma {:induction false} PatchAllOthers(items: seq<Node>, ext: seq<Node>, id: string, h: Handler, names: set<string>)
    requires KeepsKey(h, id) && PatchAll(items, ext, id, h).Ok? && NamesOf(ext, id) <= names
    ensures Others(PatchAll(items, ext, id, h).value, id, names) == Others(items, id, names)
    decreases |ext|
  {
    hide KeepsKey; hide Others;
    if ext != [] {
      assert ext[0] in ext && NamesOf(ext[1..], id) <= NamesOf(ext, id);
      PatchOneOthers(items, ext[0], id, h, names);
      PatchAllOthers(PatchOne(items, ext[0], id, h).value, ext[1..], id, h, names);
    }
  }

  /** Elements that the patch does not name keep their values and their order among each other, whatever is
      added, moved or deleted around them; keys need not be distinct. */
  lemma UnnamedElementsStay(items: seq<Node>, ext: seq<Node>, id: string, h: Handler)
    requires KeepsKey(h, id) && PatchAll(items, ext, id, h).Ok?
    ensures Others(PatchAll(items, ext, id, h).value, id, NamesOf(ext, id)) == Others(items, id, NamesOf(ext, id))
  {
    PatchAllOthers(items, ext, id, h, NamesOf(ext, id));
  }

  // ---------- the order of the keys ----------

  ghost function Except(ks: seq<string>, k: string): seq<string> {
    if ks == [] then []
    else (if ks[0] == k then [] else [ks[0]]) + Except(ks[1..], k)
  }

  /** Where one item of a patch leaves its key. */
  ghost function MovedKey(ks: seq<string>, k: string, modes: set<Mode>): seq<string> {
    if k !in ks then
      if NewFront in modes then [k] + ks else if NewBack in modes then ks + [k] else ks
    else if Override in modes then ks
    else if OverrideFront in modes then [k] + Except(ks, k)
    else if OverrideBack in modes then Except(ks, k) + [k]
    else if Delete in modes && Skip !in modes then Except(ks, k)
    else ks
  }

  /** The order of the keys after the patch; only the keys and the tags of its items matter. */
  ghost function MovedKeys(ks: seq<string>, ext: seq<Node>, id: string): seq<string>
    requires AllKeyed(ext, id) && forall e | e in ext :: ModesOf(e).Ok?
    decreases |ext|
  {
    if ext == [] then ks
    else
      assert ext[0] in ext;
      MovedKeys(MovedKey(ks, Keys(ext, id)[0], ModesOf(ext[0]).value), ext[1..], id)
  }

  lemma {:induction false} ExceptMeaning(ks: seq<string>, k: string)
    ensures forall x :: x in Except(ks, k) <==> x in ks && x != k
    ensures Distinct(ks) ==> Distinct(Except(ks, k))
    ensures k !in ks ==> Except(ks, k) == ks
  {
    if ks != [] {
      ExceptMeaning(ks[1..], k);
      assert ks == [ks[0]] + ks[1..];
      if Distinct(ks) {
        DistinctTail(ks[0], ks[1..]);
      }
    }
  }

  lemma {:induction false} ExceptOne(ks: seq<string>, i: nat)
    requires i < |ks| && Distinct(ks)
    ensures Except(ks, ks[i]) == Without(ks, i)
  {
    assert ks == [ks[0]] + ks[1..];
    DistinctTail(ks[0], ks[1..]);
    ExceptMeaning(ks[1..], ks[0]);
    if i == 0 {
      assert Without(ks, 0) == ks[1..];
    } else {
      assert ks[1..][i - 1] == ks[i] && ks[i] in ks[1..];
      ExceptOne(ks[1..], i - 1);
      WithoutTail(ks, i);
    }
  }

  lemma MovedKeyIsDistinct(ks: seq<string>, k: string, modes: set<Mode>)
    requires Distinct(ks)
    ensures Distinct(MovedKey(ks, k, modes))
  {
    ExceptMeaning(ks, k);
    if k !in ks {
      DistinctConcat([k], ks);
      DistinctConcat(ks, [k]);
    } else {
      DistinctConcat([k], Except(ks, k));
      DistinctConcat(Except(ks, k), [k]);
    }
  }

  lemma KeysConcat(a: seq<Node>, b: seq<Node>, id: string)
    requires AllKeyed(a, id) && AllKeyed(b, id)
    ensures AllKeyed(a + b, id) && Keys(a + b, id) == Keys(a, id) + Keys(b, id)
  {
  }

  lemma KeysSlices(items: seq<Node>, i: nat, id: string)
    requires i <= |items| && AllKeyed(items, id)
    ensures AllKeyed(items[..i], id) && AllKeyed(items[i..], id)
    ensures Keys(items[..i], id) == Keys(items, id)[..i] && Keys(items[i..], id) == Keys(items, id)[i..]
  {
  }

  lemma KeysWithout(items: seq<Node>, i: nat, id: string)
    requires i < |items| && AllKeyed(items, id) && Distinct(Keys(items, id))
    ensures AllKeyed(Without(items, i), id)
    ensures Keys(Without(items, i), id) == Except(Keys(items, id), Keys(items, id)[i])
  {
    KeysSlices(items, i, id);
    KeysSlices(items, i + 1, id);
    KeysConcat(items[..i], items[i + 1..], id);
    ExceptOne(Keys(items, id), i);
  }

  lemma KeysReplaced(items: seq<Node>, i: nat, v: Node, id: string)
    requires i < |items| && AllKeyed(items, id) && KeyOf(v, id) == KeyOf(items[i], id)
    ensures AllKeyed(items[i := v], id) && Keys(items[i := v], id) == Keys(items, id)
  {
  }

  lemma FindKeys(items: seq<Node>, id: string, key: string)
    requires AllKeyed(items, id)
    ensures Find(items, id, key).Ok?
    ensures key in Keys(items, id) <==> Find(items, id, key).value < |items|
  {
    var i := Find(items, id, key).value;
    assert i < |items| ==> Keys(items, id)[i] == key;
  }

  lemma PatchOneKeys(items: seq<Node>, e: Node, id: string, h: Handler)
    requires KeepsKey(h, id) && PatchOne(items, e, id, h).Ok? && AllKeyed(items, id) && Distinct(Keys(items, id))
    ensures ModesOf(e).Ok? && KeyOf(e, id).Some? && AllKeyed(PatchOne(items, e, id, h).value, id)
    ensures Keys(PatchOne(items, e, id, h).value, id) == MovedKey(Keys(items, id), KeyOf(e, id).value, ModesOf(e).value)
  {
    hide KeepsKey; hide CompareAndReplace; hide Overridden; hide ModesOf; hide Find; hide Without;
    hide Distinct; hide Except;
    var key, modes := KeyOf(e, id).value, ModesOf(e).value;
    var i := Find(items, id, key).value;
    FindKeys(items, id, key);
    assert Keys([e], id) == [key];
    if i == |items| {
      KeysConcat([e], items, id);
      KeysConcat(items, [e], id);
    } else {
      PatchPresentKeys(items, i, e, modes, id, h);
    }
  }

  lemma PatchPresentKeys(items: seq<Node>, i: nat, e: Node, modes: set<Mode>, id: string, h: Handler)
    requires KeepsKey(h, id) && AllKeyed(items, id) && Distinct(Keys(items, id))
    requires i < |items| && KeyOf(e, id) == Some(Keys(items, id)[i]) && PatchPresent(items, i, e, modes, h).Ok?
    ensures AllKeyed(PatchPresent(items, i, e, modes, h).value, id)
    ensures Keys(PatchPresent(items, i, e, modes, h).value, id) == MovedKey(Keys(items, id), Keys(items, id)[i], modes)
  {
    hide KeepsKey; hide CompareAndReplace; hide Overridden; hide ModesOf; hide Find; hide Without;
    hide Distinct; hide Except;
    var v, rest := items[i], Without(items, i);
    ReplacementKeepsKey(v, e, modes, id, h);
    KeysWithout(items, i, id);
    if AsksOverride(modes) {
      var v' := Overridden(v, e, modes, h).value;
      assert AllKeyed([v'], id) && Keys([v'], id) == [Keys(items, id)[i]];
      KeysReplaced(items, i, v', id);
      KeysConcat([v'], rest, id);
      KeysConcat(rest, [v'], id);
    } else if MergeMode in modes && CompareAndReplace(v, e).Ok? {
      KeysReplaced(items, i, CompareAndReplace(v, e).value, id);
    }
  }

  /** The keys of a patched list: distinct if they were, and in the order that the tags of the patch ask for. */
  lemma {:induction false} PatchedKeys(items: seq<Node>, ext: seq<Node>, id: string, h: Handler)
    requires KeepsKey(h, id) && PatchAll(items, ext, id, h).Ok? && AllKeyed(items, id) && Distinct(Keys(items, id))
    ensures AllKeyed(ext, id) && (forall e | e in ext :: ModesOf(e).Ok?)
    ensures AllKeyed(PatchAll(items, ext, id, h).value, id)
    ensures Keys(PatchAll(items, ext, id, h).value, id) == MovedKeys(Keys(items, id), ext, id)
    ensures Distinct(Keys(PatchAll(items, ext, id, h).value, id))
    decreases |ext|
  {
    hide KeepsKey; hide PatchOne; hide ModesOf; hide MovedKey; hide Distinct;
    if ext != [] {
      var items' := PatchOne(items, ext[0], id, h).value;
      PatchOneKeys(items, ext[0], id, h);
      MovedKeyIsDistinct(Keys(items, id), KeyOf(ext[0], id).value, ModesOf(ext[0]).value);
      PatchedKeys(items', ext[1..], id, h);
      assert ext == [ext[0]] + ext[1..];
      assert forall i | 0 < i < |ext| :: ext[i] == ext[1..][i - 1];
    }
  }

  // ---------- the value of each key ----------

  /** What one item does to the element with the key `k`. */
  function StepPatch(o: Option<Node>, e: Node, id: string, k: string, h: Handler): Result<Option<Node>, Failure> {
    if KeyOf(e, id) != Some(k) then Ok(o)
    else match ModesOf(e)
      case Err(error) => Err(error)
      case Ok(modes) =>
        match o
        case None =>
          if NewFront in modes || NewBack in modes then Ok(Some(e))
          else if NewNever in modes then Ok(None)
          else Err(Panic("patch non-existed node"))
        case Some(v) =>
          if AsksOverride(modes) then Lift(Overridden(v, e, modes, h))
          else if Skip in modes then Ok(o)
          else if Delete in modes then Ok(None)
          else if MergeMode in modes then Lift(CompareAndReplace(v, e))
          else Err(Panic("same config existed"))
  }

  function Lift(r: Result<Node, Failure>): Result<Option<Node>, Failure> {
    match r
    case Err(error) => Err(error)
    case Ok(v) => Ok(Some(v))
  }

  function FoldPatch(o: Option<Node>, ext: seq<Node>, id: string, k: string, h: Handler): Result<Option<Node>, Failure>
    decreases |ext|
  {
    if ext == [] then Ok(o)
    else match StepPatch(o, ext[0], id, k, h)
      case Err(error) => Err(error)
      case Ok(o') => FoldPatch(o', ext[1..], id, k, h)
  }

  lemma {:induction false} LookupNone(items: seq<Node>, id: string, k: string)
    requires AllKeyed(items, id)
    ensures Lookup(items, id, k) == None <==> k !in Keys(items, id)
  {
    if items != [] {
      KeysTail(items, id);
      LookupNone(items[1..], id, k);
    }
  }

  lemma LookupFront(items: seq<Node>, e: Node, id: string, k: string)
    ensures Lookup([e] + items, id, k) == if KeyOf(e, id) == Some(k) then Some(e) else Lookup(items, id, k)
  {
    assert ([e] + items)[1..] == items;
  }

  lemma {:induction false} LookupWithout(items: seq<Node>, i: nat, id: string, k: string)
    requires i < |items| && AllKeyed(items, id) && Distinct(Keys(items, id))
    ensures Lookup(Without(items, i), id, k) == if k == Keys(items, id)[i] then None else Lookup(items, id, k)
  {
    hide Distinct;
    KeysTail(items, id);
    DistinctTail(Keys(items, id)[0], Keys(items[1..], id));
    if i == 0 {
      assert Without(items, 0) == items[1..];
      LookupNone(items[1..], id, Keys(items, id)[0]);
    } else {
      assert Keys(items, id)[i] == Keys(items[1..], id)[i - 1];
      LookupBehind(items, i, id, k);
      LookupWithout(items[1..], i - 1, id, k);
    }
  }

  lemma LookupBehind(items: seq<Node>, i: nat, id: string, k: string)
    requires 0 < i < |items|
    ensures Lookup(Without(items, i), id, k) ==
            if KeyOf(items[0], id) == Some(k) then Some(items[0]) else Lookup(Without(items[1..], i - 1), id, k)
  {
    WithoutTail(items, i);
    LookupFront(Without(items[1..], i - 1), items[0], id, k);
  }

  lemma PatchPresentLookup(items: seq<Node>, i: nat, e: Node, modes: set<Mode>, id: string, h: Handler, k: string)
    requires KeepsKey(h, id) && AllKeyed(items, id) && Distinct(Keys(items, id))
    requires i < |items| && KeyOf(e, id) == Some(Keys(items, id)[i]) && Find(items, id, Keys(items, id)[i]) == Ok(i)
    requires ModesOf(e) == Ok(modes) && PatchPresent(items, i, e, modes, h).Ok?
    ensures StepPatch(Lookup(items, id, k), e, id, k, h) == Ok(Lookup(PatchPresent(items, i, e, modes, h).value, id, k))
  {
    hide KeepsKey; hide CompareAndReplace; hide Overridden; hide ModesOf; hide Find; hide Without;
    hide Distinct; hide Lookup;
    var v := items[i];
    ReplacementKeepsKey(v, e, modes, id, h);
    LookupFinds(items, id, Keys(items, id)[i]);
    LookupWithout(items, i, id, k);
    if AsksOverride(modes) {
      var v' := Overridden(v, e, modes, h).value;
      LookupReplace(items, i, v', id, k);
      LookupFront(Without(items, i), v', id, k);
      LookupAppend(Without(items, i), v', id, k);
    } else if MergeMode in modes && CompareAndReplace(v, e).Ok? {
      LookupReplace(items, i, CompareAndReplace(v, e).value, id, k);
    }
  }

  lemma PatchOneLookup(items: seq<Node>, e: Node, id: string, h: Handler, k: string)
    requires KeepsKey(h, id) && PatchOne(items, e, id, h).Ok? && AllKeyed(items, id) && Distinct(Keys(items, id))
    ensures StepPatch(Lookup(items, id, k), e, id, k, h) == Ok(Lookup(PatchOne(items, e, id, h).value, id, k))
  {
    hide KeepsKey; hide PatchPresent; hide ModesOf; hide Find; hide Distinct; hide Lookup;
    var key, modes := KeyOf(e, id).value, ModesOf(e).value;
    var i := Find(items, id, key).value;
    if i == |items| {
      LookupFinds(items, id, key);
      LookupFront(items, e, id, k);
      LookupAppend(items, e, id, k);
    } else {
      PatchPresentLookup(items, i, e, modes, id, h, k);
    }
  }

  /** The element with a given key is what the items with that key make of it, one after the other; other items
      have no influence on it. */
  lemma {:induction false} PatchedValue(items: seq<Node>, ext: seq<Node>, id: string, h: Handler, k: string)
    requires KeepsKey(h, id) && PatchAll(items, ext, id, h).Ok? && AllKeyed(items, id) && Distinct(Keys(items, id))
    ensures FoldPatch(Lookup(items, id, k), ext, id, k, h) == Ok(Lookup(PatchAll(items, ext, id, h).value, id, k))
    decreases |ext|
  {
    hide KeepsKey; hide PatchOne; hide ModesOf; hide MovedKey; hide Distinct; hide Lookup; hide StepPatch;
    if ext != [] {
      PatchOneLookup(items, ext[0], id, h, k);
      PatchOneKeys(items, ext[0], id, h);
      MovedKeyIsDistinct(Keys(items, id), KeyOf(ext[0], id).value, ModesOf(ext[0]).value);
      PatchedValue(PatchOne(items, ext[0], id, h).value, ext[1..], id, h, k);
    }
  }

  lemma PatchOneAccepted(items: seq<Node>, e: Node, id: string, h: Handler)
    requires AllKeyed(items, id)
    ensures PatchOne(items, e, id, h).Ok? <==>
              KeyOf(e, id).Some? && StepPatch(Lookup(items, id, KeyOf(e, id).value), e, id, KeyOf(e, id).value, h).Ok?
  {
    hide CompareAndReplace; hide Overridden; hide ModesOf; hide Find; hide Without; hide Distinct; hide Lookup;
    if KeyOf(e, id).Some? {
      FindKeys(items, id, KeyOf(e, id).value);
      LookupFinds(items, id, KeyOf(e, id).value);
    }
  }

  /** A patch is accepted exactly if all its items have keys and, key by key, the items with that key are. */
  lemma {:induction false} PatchAccepted(items: seq<Node>, ext: seq<Node>, id: string, h: Handler)
    requires KeepsKey(h, id) && AllKeyed(items, id) && Distinct(Keys(items, id))
    ensures PatchAll(items, ext, id, h).Ok? <==>
              && AllKeyed(ext, id)
              && forall k | k in NamesOf(ext, id) :: FoldPatch(Lookup(items, id, k), ext, id, k, h).Ok?
    decreases |ext|
  {
    hide KeepsKey; hide PatchOne; hide ModesOf; hide MovedKey; hide Distinct; hide Lookup; hide StepPatch;
    if ext != [] {
      PatchOneAccepted(items, ext[0], id, h);
      assert ext[0] in ext && ext == [ext[0]] + ext[1..];
      var first := PatchOne(items, ext[0], id, h);
      if first.Ok? {
        PatchOneKeys(items, ext[0], id, h);
        MovedKeyIsDistinct(Keys(items, id), KeyOf(ext[0], id).value, ModesOf(ext[0]).value);
        PatchAccepted(first.value, ext[1..], id, h);
        AcceptedTail(items, ext, id, h);
      }
    }
  }

  lemma AcceptedTail(items: seq<Node>, ext: seq<Node>, id: string, h: Handler)
    requires KeepsKey(h, id) && AllKeyed(items, id) && Distinct(Keys(items, id))
    requires ext != [] && PatchOne(items, ext[0], id, h).Ok?
    ensures AllKeyed(ext, id) <==> AllKeyed(ext[1..], id)
    ensures var items' := PatchOne(items, ext[0], id, h).value;
            (forall k | k in NamesOf(ext, id) :: FoldPatch(Lookup(items, id, k), ext, id, k, h).Ok?) <==>
            (forall k | k in NamesOf(ext[1..], id) :: FoldPatch(Lookup(items', id, k), ext[1..], id, k, h).Ok?)
  {
    hide KeepsKey; hide ModesOf; hide Distinct; hide Lookup; hide StepPatch;
    var items' := PatchOne(items, ext[0], id, h).value;
    assert AllKeyed(ext[1..], id) ==> AllKeyed(ext, id) by {
      assert forall i | 0 < i < |ext| :: ext[i] == ext[1..][i - 1];
    }
    assert NamesOf(ext, id) == NamesOf(ext[1..], id) + {KeyOf(ext[0], id).value} by {
      assert ext == [ext[0]] + ext[1..];
    }
    forall k
      ensures FoldPatch(Lookup(items, id, k), ext, id, k, h) == FoldPatch(Lookup(items', id, k), ext[1..], id, k, h)
    {
      PatchOneLookup(items, ext[0], id, h, k);
    }
    var k := KeyOf(ext[0], id).value;
    if k !in NamesOf(ext[1..], id) {
      FoldUnnamed(Lookup(items', id, k), ext[1..], id, k, h);
    }
  }

  lemma {:induction false} FoldUnnamed(o: Option<Node>, ext: seq<Node>, id: string, k: string, h: Handler)
    requires k !in NamesOf(ext, id)
    ensures FoldPatch(o, ext, id, k, h) == Ok(o)
    decreases |ext|
  {
    if ext != [] {
      assert ext[0] in ext && NamesOf(ext[1..], id) <= NamesOf(ext, id);
      FoldUnnamed(o, ext[1..], id, k, h);
    }
  }
}

/** `Processor::MergeListNode`: the list of an external configuration decides which elements a keyed list has;
    elements with the same key are merged by a handler. */
module MergeList {
  import opened Wrappers
  import opened Sequences
  import opened Yaml
  import opened MergeMap
  import opened KeyedList

  /** Merges the second node into the first; may throw. */
  type Handler = (Node, Node) -> Result<Node, Failure>

  const MERGE_MAP: Handler := (res, ext) => Ok(Merge(res, ext))

  // ---------- what the loops compute ----------

  /** One round of the first loop. */
  function MergeOne(items: seq<Node>, e: Node, id: string, h: Handler): Result<seq<Node>, Failure> {
    match KeyOf(e, id)
    case None => Err(BadKey)
    case Some(key) =>
      match Find(items, id, key)
      case Err(error) => Err(error)
      case Ok(i) =>
        if i == |items| then Ok(items + [e])
        else match h(items[i], e)
          case Err(error) => Err(error)
          case Ok(v) => Ok(items[i := v])
  }

  function MergeAll(items: seq<Node>, ext: seq<Node>, id: string, h: Handler): Result<seq<Node>, Failure>
    decreases |ext|
  {
    if ext == [] then Ok(items)
    else match MergeOne(items, ext[0], id, h)
      case Err(error) => Err(error)
      case Ok(items') => MergeAll(items', ext[1..], id, h)
  }

  predicate Names(ext: seq<Node>, id: string, key: string) {
    exists i | 0 <= i < |ext| :: KeyOf(ext[i], id) == Some(key)
  }

  /** The second loop: elements that `ext` does not name go. */
  function KeepNamed(items: seq<Node>, ext: seq<Node>, id: string): Result<seq<Node>, Failure> {
    if items == [] then Ok([])
    else match KeyOf(items[0], id)
      case None => Err(BadKey)
      case Some(key) =>
        match KeepNamed(items[1..], ext, id)
        case Err(error) => Err(error)
        case Ok(rest) => if Names(ext, id, key) then Ok([items[0]] + rest) else Ok(rest)
  }

  function MergeLists(items: seq<Node>, ext: seq<Node>, id: string, h: Handler): Result<seq<Node>, Failure> {
    match MergeAll(items, ext, id, h)
    case Err(error) => Err(error)
    case Ok(merged) => KeepNamed(merged, ext, id)
  }

  function MergeListNode(res: Node, ext: Node, id: string, h: Handler): Result<Node, Failure> {
    if IsUndefined(ext) then Ok(res)
    else if IsUndefined(res) || !ext.Sequence? then Ok(ext)
    else if !res.Sequence? then Err(NotASequence)
    else match MergeLists(res.items, ext.items, id, h)
      case Err(error) => Err(error)
      case Ok(items) => Ok(res.(items := items))
  }

  // ---------- the loops ----------

  lemma {:induction false} MergeAllLast(items: seq<Node>, ext: seq<Node>, e: Node, id: string, h: Handler)
    ensures MergeAll(items, ext + [e], id, h) ==
            match MergeAll(items, ext, id, h)
            case Err(error) => Err(error)
            case Ok(merged) => MergeOne(merged, e, id, h)
    decreases |ext|
  {
    if ext == [] {
      assert ext + [e] == [e] && [e][1..] == [];
    } else {
      assert (ext + [e])[1..] == ext[1..] + [e];
      var first := MergeOne(items, ext[0], id, h);
      if first.Ok? {
        MergeAllLast(first.value, ext[1..], e, id, h);
      }
    }
  }

  lemma {:induction false} MergeAllFails(items: seq<Node>, a: seq<Node>, b: seq<Node>, id: string, h: Handler)
    requires MergeAll(items, a, id, h).Err?
    ensures MergeAll(items, a + b, id, h) == MergeAll(items, a, id, h)
    decreases |a|
  {
    assert (a + b)[1..] == a[1..] + b;
    var first := MergeOne(items, a[0], id, h);
    if first.Ok? {
      MergeAllFails(first.value, a[1..], b, id, h);
    }
  }

  method MergeInto(res: ListNode, ext: seq<Node>, id: string, h: Handler) returns (r: Result<(), Failure>)
    modifies res
    ensures r.Ok? ==> MergeLists(old(res.items), ext, id, h) == Ok(res.items)
    ensures r.Err? ==> MergeLists(old(res.items), ext, id, h) == Err(r.error)
  {
    var i := 0;
    while i < |ext|
      invariant i <= |ext|
      invariant MergeAll(old(res.items), ext[..i], id, h) == Ok(res.items)
    {
      assert ext[..i + 1] == ext[..i] + [ext[i]] && ext == ext[..i + 1] + ext[i + 1..];
      MergeAllLast(old(res.items), ext[..i], ext[i], id, h);
      if MergeAll(old(res.items), ext[..i + 1], id, h).Err? {
        MergeAllFails(old(res.items), ext[..i + 1], ext[i + 1..], id, h);
      }
      var key := KeyOf(ext[i], id);
      if key.None? {
        return Err(BadKey);
      }
      var found := res.FindKey(id, key.value);
      if found.Err? {
        return Err(found.error);
      }
      if found.value == |res.items| {
        res.PushBack(ext[i]);
      } else {
        var merged := h(res.items[found.value], ext[i]);
        if merged.Err? {
          return Err(merged.error);
        }
        res.items := res.items[found.value := merged.value];
      }
      i := i + 1;
    }
    assert ext[..i] == ext;
    r := RemoveUnnamed(res, ext, id);
  }

  ghost function Prepend(a: seq<Node>, r: Result<seq<Node>, Failure>): Result<seq<Node>, Failure> {
    match r
    case Err(error) => Err(error)
    case Ok(rest) => Ok(a + rest)
  }

  lemma PrependNothing(r: Result<seq<Node>, Failure>)
    ensures Prepend([], r) == r
  {
    if r.Ok? {
      assert [] + r.value == r.value;
    }
  }

  lemma PrependTwice(a: seq<Node>, b: seq<Node>, r: Result<seq<Node>, Failure>)
    ensures Prepend(a, Prepend(b, r)) == Prepend(a + b, r)
  {
    if r.Ok? {
      assert a + (b + r.value) == (a + b) + r.value;
    }
  }

  method RemoveUnnamed(res: ListNode, ext: seq<Node>, id: string) returns (r: Result<(), Failure>)
    modifies res
    ensures r.Ok? ==> KeepNamed(old(res.items), ext, id) == Ok(res.items)
    ensures r.Err? ==> KeepNamed(old(res.items), ext, id) == Err(r.error)
  {
    var i := 0;
    ghost var seen := 0;
    assert old(res.items)[0..] == res.items && res.items[..0] == [];
    PrependNothing(KeepNamed(res.items, ext, id));
    while i != |res.items|
      invariant i <= |res.items| && seen <= |old(res.items)|
      invariant res.items[i..] == old(res.items)[seen..]
      invariant KeepNamed(old(res.items), ext, id) ==
                  Prepend(res.items[..i], KeepNamed(old(res.items)[seen..], ext, id))
      decreases |res.items| - i
    {
      ghost var done, tail, next := res.items[..i], old(res.items)[seen..], old(res.items)[seen + 1..];
      assert tail == [res.items[i]] + next && tail[1..] == next && res.items[i + 1..] == next;
      PrependTwice(done, [res.items[i]], KeepNamed(next, ext, id));
      var key := KeyOf(res.items[i], id);
      if key.None? {
        return Err(BadKey);
      }
      var named := IsNamed(ext, id, key.value);
      seen := seen + 1;
      if named {
        assert res.items[..i + 1] == done + [res.items[i]];
        i := i + 1;
      } else {
        res.Remove(i);
        assert res.items[..i] == done && res.items[i..] == next;
      }
    }
    assert old(res.items)[seen..] == [] && res.items[..i] + [] == res.items;
    return Ok(());
  }

  method IsNamed(ext: seq<Node>, id: string, key: string) returns (found: bool)
    ensures found <==> Names(ext, id, key)
  {
    found := false;
    var i := 0;
    while i < |ext| && !found
      invariant i <= |ext|
      invariant found <==> exists j | 0 <= j < i :: KeyOf(ext[j], id) == Some(key)
    {
      found := KeyOf(ext[i], id) == Some(key);
      i := i + 1;
    }
  }

  // ---------- which elements the result has, and in which order ----------

  /** What the handlers of the program do: two nodes with the same key are merged into one with that key. */
  ghost predicate KeepsKey(h: Handler, id: string) {
    forall r, e :: KeyOf(e, id).Some? && KeyOf(r, id) == KeyOf(e, id) && h(r, e).Ok? ==>
      KeyOf(h(r, e).value, id) == KeyOf(e, id)
  }

  lemma MergeMapKeepsKey(id: string)
    ensures KeepsKey(MERGE_MAP, id)
  {
    forall r, e | KeyOf(e, id).Some? && KeyOf(r, id) == KeyOf(e, id)
      ensures KeyOf(Merge(r, e), id) == KeyOf(e, id)
    {
      if id != "" {
        assert Merge(r, e).fields[id] == Merge(r.fields[id], e.fields[id]) == e.fields[id];
      }
    }
  }

  /** The keys of `ext` that are not in `have`, each once, in order of first appearance. */
  function NewKeys(have: seq<string>, ext: seq<string>): seq<string>
    decreases |ext|
  {
    if ext == [] then []
    else if ext[0] in have then NewKeys(have, ext[1..])
    else [ext[0]] + NewKeys(have + [ext[0]], ext[1..])
  }

  /** The keys that are also in `names`, in the same order. */
  function Kept(ks: seq<string>, names: seq<string>): seq<string> {
    if ks == [] then []
    else (if ks[0] in names then [ks[0]] else []) + Kept(ks[1..], names)
  }

  lemma MergeOneKeys(items: seq<Node>, e: Node, id: string, h: Handler)
    requires KeepsKey(h, id) && MergeOne(items, e, id, h).Ok?
    ensures KeyOf(e, id).Some?
    ensures var out := MergeOne(items, e, id, h).value;
            && (AllKeyed(items, id) <==> AllKeyed(out, id))
            && (AllKeyed(items, id) ==>
                  var ks, k := Keys(items, id), KeyOf(e, id).value;
                  Keys(out, id) == if k in ks then ks else ks + [k])
  {
    var k := KeyOf(e, id).value;
    var i := Find(items, id, k).value;
    var out := MergeOne(items, e, id, h).value;
    if i < |items| {
      assert out == items[i := out[i]] && KeyOf(out[i], id) == Some(k);
      assert AllKeyed(out, id) ==> forall j | 0 <= j < |items| :: KeyOf(items[j], id).Some? by {
        assert forall j | 0 <= j < |items| && j != i :: out[j] == items[j];
      }
      if AllKeyed(items, id) {
        assert Keys(items, id)[i] == k;
      }
    } else {
      assert out == items + [e];
      assert AllKeyed(out, id) ==> forall j | 0 <= j < |items| :: KeyOf(items[j], id).Some? by {
        assert forall j | 0 <= j < |items| :: out[j] == items[j];
      }
      if AllKeyed(items, id) {
        assert forall j | 0 <= j < |items| :: Keys(items, id)[j] != k;
        assert Keys(out, id) == Keys(items, id) + [k];
      }
    }
  }

  lemma KeysTail(ext: seq<Node>, id: string)
    requires ext != [] && AllKeyed(ext, id)
    ensures AllKeyed(ext[1..], id) && Keys(ext, id) == [KeyOf(ext[0], id).value] + Keys(ext[1..], id)
  {
  }

  lemma {:induction false} MergeAllKeys(items: seq<Node>, ext: seq<Node>, id: string, h: Handler)
    requires KeepsKey(h, id) && MergeAll(items, ext, id, h).Ok?
    ensures AllKeyed(ext, id)
    ensures var out := MergeAll(items, ext, id, h).value;
            && (AllKeyed(items, id) <==> AllKeyed(out, id))
            && (AllKeyed(items, id) ==> Keys(out, id) == Keys(items, id) + NewKeys(Keys(items, id), Keys(ext, id)))
    decreases |ext|
  {
    if ext != [] {
      var items' := MergeOne(items, ext[0], id, h).value;
      MergeOneKeys(items, ext[0], id, h);
      MergeAllKeys(items', ext[1..], id, h);
      KeysTail(ext, id);
      if AllKeyed(items, id) {
        var ks, k, rest := Keys(items, id), KeyOf(ext[0], id).value, Keys(ext[1..], id);
        assert Keys(ext, id)[1..] == rest;
        Assoc(ks, [k], NewKeys(ks + [k], rest));
      }
    }
  }

  lemma {:induction false} KeepNamedKeys(items: seq<Node>, ext: seq<Node>, id: string)
    requires AllKeyed(ext, id) && KeepNamed(items, ext, id).Ok?
    ensures AllKeyed(items, id) && AllKeyed(KeepNamed(items, ext, id).value, id)
    ensures Keys(KeepNamed(items, ext, id).value, id) == Kept(Keys(items, id), Keys(ext, id))
  {
    if items != [] {
      KeepNamedKeys(items[1..], ext, id);
      KeysTail(items, id);
      var k := Keys(items, id)[0];
      assert Keys(items, id)[1..] == Keys(items[1..], id);
      assert Names(ext, id, k) <==> k in Keys(ext, id);
      var out := KeepNamed(items, ext, id).value;
      if Names(ext, id, k) {
        assert out[1..] == KeepNamed(items[1..], ext, id).value;
        KeysTail(out, id);
      }
    }
  }

  lemma {:induction false} KeptConcat(a: seq<string>, b: seq<string>, names: seq<string>)
    ensures Kept(a + b, names) == Kept(a, names) + Kept(b, names)
    decreases |a|
  {
    if a == [] {
      assert a + b == b;
    } else {
      assert (a + b)[1..] == a[1..] + b;
      KeptConcat(a[1..], b, names);
      Assoc(if a[0] in names then [a[0]] else [], Kept(a[1..], names), Kept(b, names));
    }
  }

  lemma {:induction false} KeptAll(ks: seq<string>, names: seq<string>)
    requires forall k | k in ks :: k in names
    ensures Kept(ks, names) == ks
  {
    if ks != [] {
      KeptAll(ks[1..], names);
    }
  }

  lemma {:induction false} NewKeysMeaning(have: seq<string>, ext: seq<string>)
    ensures forall k :: k in NewKeys(have, ext) <==> k in ext && k !in have
    ensures Distinct(NewKeys(have, ext))
    decreases |ext|
  {
    if ext != [] {
      NewKeysMeaning(have, ext[1..]);
      NewKeysMeaning(have + [ext[0]], ext[1..]);
    }
  }

  lemma {:induction false} KeptMeaning(ks: seq<string>, names: seq<string>)
    ensures forall k :: k in Kept(ks, names) <==> k in ks && k in names
    ensures Distinct(ks) ==> Distinct(Kept(ks, names))
  {
    if ks != [] {
      KeptMeaning(ks[1..], names);
      assert ks == [ks[0]] + ks[1..];
      if Distinct(ks) {
        DistinctTail(ks[0], ks[1..]);
      }
    }
  }

  /** If the merge of two lists does not throw, all elements of both have keys, and the keys of the result are
      the survivors in their old order followed by the new keys of `ext` in order of first appearance. */
  lemma MergedKeys(items: seq<Node>, ext: seq<Node>, id: string, h: Handler)
    requires KeepsKey(h, id) && MergeLists(items, ext, id, h).Ok?
    ensures AllKeyed(items, id) && AllKeyed(ext, id) && AllKeyed(MergeLists(items, ext, id, h).value, id)
    ensures Keys(MergeLists(items, ext, id, h).value, id)
         == Kept(Keys(items, id), Keys(ext, id)) + NewKeys(Keys(items, id), Keys(ext, id))
  {
    MergeAllKeys(items, ext, id, h);
    KeepNamedKeys(MergeAll(items, ext, id, h).value, ext, id);
    var ks, es := Keys(items, id), Keys(ext, id);
    KeptConcat(ks, NewKeys(ks, es), es);
    NewKeysMeaning(ks, es);
    KeptAll(NewKeys(ks, es), es);
  }

  /** With distinct keys in the old list the result has exactly the keys of `ext`, each once. */
  lemma MergedHasExtKeysOnce(items: seq<Node>, ext: seq<Node>, id: string, h: Handler)
    requires KeepsKey(h, id) && MergeLists(items, ext, id, h).Ok?
    requires AllKeyed(items, id) && Distinct(Keys(items, id))
    ensures AllKeyed(ext, id) && AllKeyed(MergeLists(items, ext, id, h).value, id)
    ensures Distinct(Keys(MergeLists(items, ext, id, h).value, id))
    ensures forall k :: k in Keys(MergeLists(items, ext, id, h).value, id) <==> k in Keys(ext, id)
  {
    MergedKeys(items, ext, id, h);
    KeptMeaning(Keys(items, id), Keys(ext, id));
    NewKeysMeaning(Keys(items, id), Keys(ext, id));
    DistinctConcat(Kept(Keys(items, id), Keys(ext, id)), NewKeys(Keys(items, id), Keys(ext, id)));
  }

  // ---------- which value each key has ----------

  /** What one item of `ext` does to the value of a key. */
  function StepKey(o: Option<Node>, e: Node, id: string, k: string, h: Handler): Result<Option<Node>, Failure> {
    if KeyOf(e, id) != Some(k) then Ok(o)
    else match o
      case None => Ok(Some(e))
      case Some(v) => match h(v, e)
        case Err(error) => Err(error)
        case Ok(merged) => Ok(Some(merged))
  }

  function FoldKey(o: Option<Node>, ext: seq<Node>, id: string, k: string, h: Handler): Result<Option<Node>, Failure>
    decreases |ext|
  {
    if ext == [] then Ok(o)
    else match StepKey(o, ext[0], id, k, h)
      case Err(error) => Err(error)
      case Ok(o') => FoldKey(o', ext[1..], id, k, h)
  }

  lemma {:induction false} LookupAppend(items: seq<Node>, e: Node, id: string, k: string)
    ensures Lookup(items + [e], id, k) ==
            if Lookup(items, id, k).Some? then Lookup(items, id, k)
            else if KeyOf(e, id) == Some(k) then Some(e) else None
  {
    if items == [] {
      assert items + [e] == [e];
    } else {
      assert (items + [e])[1..] == items[1..] + [e];
      LookupAppend(items[1..], e, id, k);
    }
  }

  lemma {:induction false} LookupReplace(items: seq<Node>, i: nat, v: Node, id: string, k: string)
    requires i < |items| && KeyOf(v, id) == KeyOf(items[i], id)
    requires KeyOf(v, id) == Some(k) ==> Find(items, id, k) == Ok(i)
    ensures Lookup(items[i := v], id, k) == if KeyOf(v, id) == Some(k) then Some(v) else Lookup(items, id, k)
  {
    if i > 0 {
      assert items[i := v][1..] == items[1..][i - 1 := v];
      LookupReplace(items[1..], i - 1, v, id, k);
    }
  }

  lemma MergeOneLookup(items: seq<Node>, e: Node, id: string, h: Handler, k: string)
    requires KeepsKey(h, id) && MergeOne(items, e, id, h).Ok?
    ensures StepKey(Lookup(items, id, k), e, id, k, h) == Ok(Lookup(MergeOne(items, e, id, h).value, id, k))
  {
    var key := KeyOf(e, id).value;
    var i := Find(items, id, key).value;
    LookupFinds(items, id, key);
    if i == |items| {
      LookupAppend(items, e, id, k);
    } else {
      LookupReplace(items, i, h(items[i], e).value, id, k);
    }
  }

  lemma {:induction false} MergeAllLookup(items: seq<Node>, ext: seq<Node>, id: string, h: Handler, k: string)
    requires KeepsKey(h, id) && MergeAll(items, ext, id, h).Ok?
    ensures FoldKey(Lookup(items, id, k), ext, id, k, h) == Ok(Lookup(MergeAll(items, ext, id, h).value, id, k))
    decreases |ext|
  {
    if ext != [] {
      MergeOneLookup(items, ext[0], id, h, k);
      MergeAllLookup(MergeOne(items, ext[0], id, h).value, ext[1..], id, h, k);
    }
  }

  lemma {:induction false} KeepNamedLookup(items: seq<Node>, ext: seq<Node>, id: string, k: string)
    requires KeepNamed(items, ext, id).Ok?
    ensures Lookup(KeepNamed(items, ext, id).value, id, k) == if Names(ext, id, k) then Lookup(items, id, k) else None
  {
    if items != [] {
      KeepNamedLookup(items[1..], ext, id, k);
      var out := KeepNamed(items, ext, id).value;
      if Names(ext, id, KeyOf(items[0], id).value) {
        assert out[1..] == KeepNamed(items[1..], ext, id).value;
      }
    }
  }

  /** The value of a key is what the items of `ext` with that key make of the old value, one after the other;
      items with other keys have no influence on it. */
  lemma MergedValue(items: seq<Node>, ext: seq<Node>, id: string, h: Handler, k: string)
    requires KeepsKey(h, id) && MergeLists(items, ext, id, h).Ok?
    ensures var o := Lookup(MergeLists(items, ext, id, h).value, id, k);
            if Names(ext, id, k) then FoldKey(Lookup(items, id, k), ext, id, k, h) == Ok(o) else o == None
  {
    MergeAllLookup(items, ext, id, h, k);
    KeepNamedLookup(MergeAll(items, ext, id, h).value, ext, id, k);
  }

  // ---------- merging again ----------

  /** The handler does nothing new when it merges `e` again, into an element with its key or into `e` itself. */
  ghost predicate Idempotent(h: Handler, e: Node, id: string) {
    && (forall r :: KeyOf(r, id) == KeyOf(e, id) && h(r, e).Ok? ==> h(h(r, e).value, e) == h(r, e))
    && h(e, e) == Ok(e)
  }

  lemma MergeMapIdempotent(e: Node, id: string)
    ensures Idempotent(MERGE_MAP, e, id)
  {
    forall r ensures Merge(Merge(r, e), e) == Merge(r, e) {
      MergeIdempotent(r, e);
    }
    MergeSelf(e);
  }

  lemma {:induction false} LookupKey(items: seq<Node>, id: string, k: string)
    ensures Lookup(items, id, k).Some? ==> KeyOf(Lookup(items, id, k).value, id) == Some(k)
  {
    if items != [] {
      LookupKey(items[1..], id, k);
    }
  }

  lemma StepOther(o: Option<Node>, e: Node, id: string, k: string, h: Handler)
    requires KeyOf(e, id) != Some(k)
    ensures StepKey(o, e, id, k, h) == Ok(o)
  {
  }

  lemma {:induction false} FoldKeyNever(o: Option<Node>, ext: seq<Node>, id: string, k: string, h: Handler)
    requires forall j | 0 <= j < |ext| :: KeyOf(ext[j], id) != Some(k)
    ensures FoldKey(o, ext, id, k, h) == Ok(o)
    decreases |ext|
  {
    hide StepKey; hide KeyOf;
    if ext != [] {
      StepOther(o, ext[0], id, k, h);
      FoldKeyNever(o, ext[1..], id, k, h);
    }
  }

  lemma {:induction false} FoldKeyAt(o: Option<Node>, ext: seq<Node>, id: string, i: nat, k: string, h: Handler)
    requires i < |ext| && forall j | 0 <= j < |ext| && j != i :: KeyOf(ext[j], id) != Some(k)
    ensures FoldKey(o, ext, id, k, h) == StepKey(o, ext[i], id, k, h)
    decreases |ext|
  {
    hide StepKey; hide KeyOf;
    if i == 0 {
      var first := StepKey(o, ext[0], id, k, h);
      if first.Ok? {
        FoldKeyNever(first.value, ext[1..], id, k, h);
      }
    } else {
      StepOther(o, ext[0], id, k, h);
      FoldKeyAt(o, ext[1..], id, i - 1, k, h);
    }
  }

  lemma FoldKeyOnce(o: Option<Node>, ext: seq<Node>, id: string, i: nat, h: Handler)
    requires AllKeyed(ext, id) && Distinct(Keys(ext, id)) && i < |ext|
    ensures var k := Keys(ext, id)[i]; FoldKey(o, ext, id, k, h) == StepKey(o, ext[i], id, k, h)
  {
    hide FoldKey; hide StepKey;
    var ks := Keys(ext, id);
    forall j | 0 <= j < |ext| && j != i ensures KeyOf(ext[j], id) != Some(ks[i]) {
      assert if i < j then ks[i] != ks[j] else ks[j] != ks[i];
    }
    FoldKeyAt(o, ext, id, i, ks[i], h);
  }

  // ---------- when a merge is accepted ----------

  lemma MergeOneAccepted(items: seq<Node>, e: Node, id: string, h: Handler)
    requires AllKeyed(items, id) && KeyOf(e, id).Some?
    ensures MergeOne(items, e, id, h).Ok? <==>
              StepKey(Lookup(items, id, KeyOf(e, id).value), e, id, KeyOf(e, id).value, h).Ok?
  {
    LookupFinds(items, id, KeyOf(e, id).value);
  }

  ghost predicate EachKeyAccepted(items: seq<Node>, ext: seq<Node>, id: string, h: Handler) {
    forall k :: FoldKey(Lookup(items, id, k), ext, id, k, h).Ok?
  }

  lemma {:induction false} MergeAllAccepted(items: seq<Node>, ext: seq<Node>, id: string, h: Handler)
    requires KeepsKey(h, id) && AllKeyed(items, id) && AllKeyed(ext, id) && EachKeyAccepted(items, ext, id, h)
    ensures MergeAll(items, ext, id, h).Ok?
    decreases |ext|
  {
    hide KeepsKey; hide Lookup; hide StepKey; hide MergeOne;
    if ext != [] {
      var k := KeyOf(ext[0], id).value;
      assert FoldKey(Lookup(items, id, k), ext, id, k, h).Ok?;
      MergeOneAccepted(items, ext[0], id, h);
      MergeOneKeys(items, ext[0], id, h);
      KeysTail(ext, id);
      var items' := MergeOne(items, ext[0], id, h).value;
      forall k ensures FoldKey(Lookup(items', id, k), ext[1..], id, k, h).Ok? {
        MergeOneLookup(items, ext[0], id, h, k);
        assert FoldKey(Lookup(items, id, k), ext, id, k, h).Ok?;
      }
      MergeAllAccepted(items', ext[1..], id, h);
    }
  }

  lemma {:induction false} KeyedIsKept(items: seq<Node>, ext: seq<Node>, id: string)
    requires AllKeyed(items, id)
    ensures KeepNamed(items, ext, id).Ok?
  {
    if items != [] {
      KeysTail(items, id);
      KeyedIsKept(items[1..], ext, id);
    }
  }

  /** A merge is accepted exactly if all elements of both lists have keys and, key by key, the handler accepts the
      items with that key. */
  lemma MergeAccepted(items: seq<Node>, ext: seq<Node>, id: string, h: Handler)
    requires KeepsKey(h, id)
    ensures MergeLists(items, ext, id, h).Ok? <==>
              AllKeyed(items, id) && AllKeyed(ext, id) && EachKeyAccepted(items, ext, id, h)
  {
    hide KeepsKey; hide Lookup; hide FoldKey; hide KeepNamed; hide MergeAll;
    if MergeLists(items, ext, id, h).Ok? {
      MergeAllKeys(items, ext, id, h);
      KeepNamedKeys(MergeAll(items, ext, id, h).value, ext, id);
      forall k ensures FoldKey(Lookup(items, id, k), ext, id, k, h).Ok? {
        MergeAllLookup(items, ext, id, h, k);
      }
    } else if AllKeyed(items, id) && AllKeyed(ext, id) && EachKeyAccepted(items, ext, id, h) {
      MergeAllAccepted(items, ext, id, h);
      MergeAllKeys(items, ext, id, h);
      KeyedIsKept(MergeAll(items, ext, id, h).value, ext, id);
    }
  }

  lemma {:induction false} MapsAreAccepted(o: Option<Node>, ext: seq<Node>, id: string, k: string)
    ensures FoldKey(o, ext, id, k, MERGE_MAP).Ok?
    decreases |ext|
  {
    if ext != [] {
      MapsAreAccepted(StepKey(o, ext[0], id, k, MERGE_MAP).value, ext[1..], id, k);
    }
  }

  /** With maps nothing but a missing key fails. */
  lemma MapsAccepted(items: seq<Node>, ext: seq<Node>, id: string)
    ensures MergeLists(items, ext, id, MERGE_MAP).Ok? <==> AllKeyed(items, id) && AllKeyed(ext, id)
  {
    hide KeepsKey; hide Lookup; hide FoldKey; hide MergeLists;
    MergeMapKeepsKey(id);
    MergeAccepted(items, ext, id, MERGE_MAP);
    forall k ensures FoldKey(Lookup(items, id, k), ext, id, k, MERGE_MAP).Ok? {
      MapsAreAccepted(Lookup(items, id, k), ext, id, k);
    }
  }

  // ---------- what each item does ----------

  /** If `ext` names no key twice, each of its items is merged by the handler into the element with its key, and is
      that element itself if there was none. */
  lemma MergedItem(items: seq<Node>, ext: seq<Node>, id: string, h: Handler, i: nat)
    requires KeepsKey(h, id) && MergeLists(items, ext, id, h).Ok?
    requires AllKeyed(ext, id) && Distinct(Keys(ext, id)) && i < |ext|
    ensures var o := Lookup(MergeLists(items, ext, id, h).value, id, Keys(ext, id)[i]);
            match Lookup(items, id, Keys(ext, id)[i])
            case None => o == Some(ext[i])
            case Some(v) => h(v, ext[i]).Ok? && o == Some(h(v, ext[i]).value)
  {
    hide KeepsKey; hide MergeLists; hide Lookup; hide Distinct;
    var k := Keys(ext, id)[i];
    assert Names(ext, id, k);
    MergedValue(items, ext, id, h, k);
    FoldKeyOnce(Lookup(items, id, k), ext, id, i, h);
  }

  /** With maps, position by position: a value of the item wins, and what it neither defines nor cuts off stays. */
  lemma MergedItemAt(items: seq<Node>, ext: seq<Node>, id: string, i: nat, p: Path)
    requires MergeLists(items, ext, id, MERGE_MAP).Ok?
    requires AllKeyed(ext, id) && Distinct(Keys(ext, id)) && i < |ext|
    requires Lookup(items, id, Keys(ext, id)[i]).Some?
    ensures var v := Lookup(items, id, Keys(ext, id)[i]).value;
            var o := Lookup(MergeLists(items, ext, id, MERGE_MAP).value, id, Keys(ext, id)[i]);
            && o.Some?
            && (!IsUndefined(At(ext[i], p)) && !At(ext[i], p).Map? ==> At(o.value, p) == At(ext[i], p))
            && (IsUndefined(At(ext[i], p)) && !CutOff(ext[i], p) ==> SameValue(At(o.value, p), At(v, p)))
  {
    hide KeepsKey; hide MergeLists; hide Lookup; hide Distinct; hide Merge; hide At; hide CutOff;
    MergeMapKeepsKey(id);
    MergedItem(items, ext, id, MERGE_MAP, i);
    var v := Lookup(items, id, Keys(ext, id)[i]).value;
    if !IsUndefined(At(ext[i], p)) && !At(ext[i], p).Map? {
      ExtValueWins(v, ext[i], p);
    } else if IsUndefined(At(ext[i], p)) && !CutOff(ext[i], p) {
      UntouchedValueStays(v, ext[i], p);
    }
  }

  // ---------- items that change nothing ----------

  /** An item that changes nothing about the value of its key. */
  ghost predicate Settled(items: seq<Node>, e: Node, id: string, h: Handler) {
    && KeyOf(e, id).Some?
    && Lookup(items, id, KeyOf(e, id).value).Some?
    && h(Lookup(items, id, KeyOf(e, id).value).value, e) == Ok(Lookup(items, id, KeyOf(e, id).value).value)
  }

  lemma {:induction false} MergeAllSettled(items: seq<Node>, ext: seq<Node>, id: string, h: Handler)
    requires AllKeyed(items, id) && forall i | 0 <= i < |ext| :: Settled(items, ext[i], id, h)
    ensures MergeAll(items, ext, id, h) == Ok(items)
    decreases |ext|
  {
    if ext != [] {
      var k := KeyOf(ext[0], id).value;
      LookupFinds(items, id, k);
      assert Settled(items, ext[0], id, h);
      assert items[Find(items, id, k).value := items[Find(items, id, k).value]] == items;
      MergeAllSettled(items, ext[1..], id, h);
    }
  }

  lemma {:induction false} KeepNamedAll(items: seq<Node>, ext: seq<Node>, id: string)
    requires forall x | x in items :: KeyOf(x, id).Some? && Names(ext, id, KeyOf(x, id).value)
    ensures KeepNamed(items, ext, id) == Ok(items)
  {
    if items != [] {
      KeepNamedAll(items[1..], ext, id);
      assert [items[0]] + items[1..] == items;
    }
  }

  lemma ItemSettles(items: seq<Node>, ext: seq<Node>, id: string, h: Handler, i: nat)
    requires KeepsKey(h, id) && MergeLists(items, ext, id, h).Ok?
    requires AllKeyed(ext, id) && Distinct(Keys(ext, id)) && i < |ext| && Idempotent(h, ext[i], id)
    ensures Settled(MergeLists(items, ext, id, h).value, ext[i], id, h)
  {
    hide KeepsKey; hide MergeLists; hide Lookup; hide FoldKey;
    var k := Keys(ext, id)[i];
    MergedValue(items, ext, id, h, k);
    FoldKeyOnce(Lookup(items, id, k), ext, id, i, h);
    LookupKey(items, id, k);
    assert Names(ext, id, k);
  }

  lemma ResultNamed(items: seq<Node>, ext: seq<Node>, id: string, h: Handler)
    requires KeepsKey(h, id) && MergeLists(items, ext, id, h).Ok?
    ensures AllKeyed(ext, id) && AllKeyed(MergeLists(items, ext, id, h).value, id)
    ensures forall x | x in MergeLists(items, ext, id, h).value ::
              KeyOf(x, id).Some? && Names(ext, id, KeyOf(x, id).value)
  {
    var out := MergeLists(items, ext, id, h).value;
    MergedKeys(items, ext, id, h);
    KeptMeaning(Keys(items, id), Keys(ext, id));
    NewKeysMeaning(Keys(items, id), Keys(ext, id));
    forall i | 0 <= i < |out| ensures KeyOf(out[i], id).Some? && Names(ext, id, KeyOf(out[i], id).value) {
      assert Keys(out, id)[i] in Keys(ext, id);
    }
  }

  /** With distinct keys in the external list, merging it a second time changes nothing. */
  lemma MergeTwice(items: seq<Node>, ext: seq<Node>, id: string, h: Handler)
    requires KeepsKey(h, id) && MergeLists(items, ext, id, h).Ok?
    requires AllKeyed(ext, id) && Distinct(Keys(ext, id)) && forall e | e in ext :: Idempotent(h, e, id)
    ensures MergeLists(MergeLists(items, ext, id, h).value, ext, id, h) == MergeLists(items, ext, id, h)
  {
    var out := MergeLists(items, ext, id, h).value;
    hide KeepsKey; hide Idempotent; hide Settled; hide Names;
    ResultNamed(items, ext, id, h);
    forall i | 0 <= i < |ext| ensures Settled(out, ext[i], id, h) {
      ItemSettles(items, ext, id, h, i);
    }
    KeepNamedAll(out, ext, id);
    MergeAllSettled(out, ext, id, h);
  }

  /** The same for the nodes themselves. */
  lemma MergeNodeTwice(res: Node, ext: Node, id: string, h: Handler)
    requires KeepsKey(h, id) && MergeListNode(res, ext, id, h).Ok?
    requires ext.Sequence? ==>
               && AllKeyed(ext.items, id) && Distinct(Keys(ext.items, id))
               && forall e | e in ext.items :: Idempotent(h, e, id)
    ensures MergeListNode(MergeListNode(res, ext, id, h).value, ext, id, h) == MergeListNode(res, ext, id, h)
  {
    hide Idempotent; hide KeepsKey; hide MergeLists;
    if ext.Sequence? {
      if IsUndefined(res) {
        MergeSelfList(ext.items, id, h);
      } else if res.Sequence? {
        MergeTwice(res.items, ext.items, id, h);
      }
    }
  }

  lemma MergeSelfList(ext: seq<Node>, id: string, h: Handler)
    requires AllKeyed(ext, id) && Distinct(Keys(ext, id)) && forall e | e in ext :: Idempotent(h, e, id)
    ensures MergeLists(ext, ext, id, h) == Ok(ext)
  {
    forall i | 0 <= i < |ext| ensures Settled(ext, ext[i], id, h) {
      assert ext[i] in ext && Idempotent(h, ext[i], id);
      LookupDistinct(ext, id, i);
    }
    MergeAllSettled(ext, ext, id, h);
    KeepNamedAll(ext, ext, id);
  }

  lemma {:induction false} LookupDistinct(items: seq<Node>, id: string, i: nat)
    requires AllKeyed(items, id) && Distinct(Keys(items, id)) && i < |items|
    ensures Lookup(items, id, Keys(items, id)[i]) == Some(items[i])
  {
    if i > 0 {
      KeysTail(items, id);
      DistinctTail(Keys(items, id)[0], Keys(items[1..], id));
      assert Keys(items, id)[i] == Keys(items[1..], id)[i - 1];
      LookupDistinct(items[1..], id, i - 1);
    }
  }
}

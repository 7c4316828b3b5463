/** `Processor::PatchListNode`: the items of a patch add, replace, move or delete elements of a keyed list, as
    their tags say. */
module PatchList {
  import opened Wrappers
  import opened Sequences
  import opened Yaml
  import opened MergeMap
  import opened KeyedList
  import opened MergeList
  import opened PatchMode

  // ---------- what the loops compute ----------

  /** Whether the text of some element is the text of `item`; a node without text throws when it is compared. */
  function TextAmong(items: seq<Node>, item: Node): Result<bool, Failure> {
    if items == [] then Ok(false)
    else match KeyOf(item, "")
      case None => Err(BadKey)
      case Some(text) =>
        match Find(items, "", text)
        case Err(error) => Err(error)
        case Ok(i) => Ok(i < |items|)
  }

  /** The elements of `ext` whose text is not in `old`; they are not compared with each other. */
  function NewTexts(known: seq<Node>, ext: seq<Node>): Result<seq<Node>, Failure>
    decreases |ext|
  {
    if ext == [] then Ok([])
    else match TextAmong(known, ext[0])
      case Err(error) => Err(error)
      case Ok(found) =>
        match NewTexts(known, ext[1..])
        case Err(error) => Err(error)
        case Ok(rest) => Ok((if found then [] else [ext[0]]) + rest)
  }

  function CompareAndReplace(res: Node, ext: Node): Result<Node, Failure> {
    if ext.Map? && res.Map? then Ok(Merge(res, ext))
    else if ext.Sequence? && res.Sequence? then
      match NewTexts(res.items, ext.items)
      case Err(error) => Err(error)
      case Ok(added) => Ok(res.(items := res.items + added))
    else Ok(ext)
  }

  function PatchAbsent(items: seq<Node>, e: Node, modes: set<Mode>): Result<seq<Node>, Failure> {
    if NewFront in modes then Ok([e] + items)
    else if NewBack in modes then Ok(items + [e])
    else if NewNever in modes then Ok(items)
    else Err(Panic("patch non-existed node"))
  }

  /** An element whose tag says override is replaced as a whole, otherwise the handler merges. */
  function Overridden(res: Node, e: Node, modes: set<Mode>, h: Handler): Result<Node, Failure> {
    if Explicit in modes then Ok(e) else h(res, e)
  }

  predicate AsksOverride(modes: set<Mode>) {
    Override in modes || OverrideFront in modes || OverrideBack in modes
  }

  function PatchPresent(items: seq<Node>, i: nat, e: Node, modes: set<Mode>, h: Handler): Result<seq<Node>, Failure>
    requires i < |items|
  {
    if AsksOverride(modes) then
      match Overridden(items[i], e, modes, h)
      case Err(error) => Err(error)
      case Ok(v) =>
        if Override in modes then Ok(items[i := v])
        else if OverrideFront in modes then Ok([v] + Without(items, i))
        else Ok(Without(items, i) + [v])
    else if Skip in modes then Ok(items)
    else if Delete in modes then Ok(Without(items, i))
    else if MergeMode in modes then
      match CompareAndReplace(items[i], e)
      case Err(error) => Err(error)
      case Ok(v) => Ok(items[i := v])
    else Err(Panic("same config existed"))
  }

  /** One round of the loop over the patch. */
  function PatchOne(items: seq<Node>, e: Node, id: string, h: Handler): Result<seq<Node>, Failure> {
    match ModesOf(e)
    case Err(error) => Err(error)
    case Ok(modes) =>
      match KeyOf(e, id)
      case None => Err(BadKey)
      case Some(key) =>
        match Find(items, id, key)
        case Err(error) => Err(error)
        case Ok(i) => if i == |items| then PatchAbsent(items, e, modes) else PatchPresent(items, i, e, modes, h)
  }

  function PatchAll(items: seq<Node>, ext: seq<Node>, id: string, h: Handler): Result<seq<Node>, Failure>
    decreases |ext|
  {
    if ext == [] then Ok(items)
    else match PatchOne(items, ext[0], id, h)
      case Err(error) => Err(error)
      case Ok(items') => PatchAll(items', ext[1..], id, h)
  }

  /** `HasExplicitOverridePatchMode`. */
  function ReplacesWhole(n: Node): Result<bool, Failure> {
    if CustomTag(n) == "" then Ok(false)
    else if CustomTag(n) == "override" then Ok(true)
    else Err(Panic("unsupported"))
  }

  function PatchListNode(res: Node, ext: Node, id: string, h: Handler): Result<Node, Failure> {
    if IsUndefined(ext) then Ok(res)
    else if IsUndefined(res) || !ext.Sequence? then Ok(ext)
    else match ReplacesWhole(ext)
      case Err(error) => Err(error)
      case Ok(whole) =>
        if whole then Ok(ext)
        else if !res.Sequence? then Err(NotASequence)
        else match PatchAll(res.items, ext.items, id, h)
          case Err(error) => Err(error)
          case Ok(items) => Ok(res.(items := items))
  }

  // ---------- the loops ----------

  lemma {:induction false} PatchAllLast(items: seq<Node>, ext: seq<Node>, e: Node, id: string, h: Handler)
    ensures PatchAll(items, ext + [e], id, h) ==
            match PatchAll(items, ext, id, h)
            case Err(error) => Err(error)
            case Ok(patched) => PatchOne(patched, e, id, h)
    decreases |ext|
  {
    hide PatchOne;
    if ext == [] {
      assert ext + [e] == [e] && [e][1..] == [];
    } else {
      assert (ext + [e])[1..] == ext[1..] + [e];
      var first := PatchOne(items, ext[0], id, h);
      if first.Ok? {
        PatchAllLast(first.value, ext[1..], e, id, h);
      }
    }
  }

  lemma {:induction false} PatchAllFails(items: seq<Node>, a: seq<Node>, b: seq<Node>, id: string, h: Handler)
    requires PatchAll(items, a, id, h).Err?
    ensures PatchAll(items, a + b, id, h) == PatchAll(items, a, id, h)
    decreases |a|
  {
    hide PatchOne;
    assert (a + b)[1..] == a[1..] + b;
    var first := PatchOne(items, a[0], id, h);
    if first.Ok? {
      PatchAllFails(first.value, a[1..], b, id, h);
    }
  }

  /** The element at a place replaced, merged or moved. */
  method PatchAt(res: ListNode, i: nat, e: Node, modes: set<Mode>, h: Handler) returns (r: Result<(), Failure>)
    requires i < |res.items|
    modifies res
    ensures r.Ok? ==> PatchPresent(old(res.items), i, e, modes, h) == Ok(res.items)
    ensures r.Err? ==> PatchPresent(old(res.items), i, e, modes, h) == Err(r.error)
  {
    var v := res.items[i];
    if AsksOverride(modes) {
      if Explicit in modes {
        v := e;
      } else {
        var merged := h(v, e);
        if merged.Err? {
          return Err(merged.error);
        }
        v := merged.value;
      }
      res.items := res.items[i := v];
      if Override !in modes {
        res.Remove(i);
        assert res.items == Without(old(res.items), i);
        if OverrideFront in modes {
          res.PushFront(v);
        } else {
          res.PushBack(v);
        }
      }
    } else if Skip in modes {
    } else if Delete in modes {
      res.Remove(i);
    } else if MergeMode in modes {
      var merged := CompareAndReplaceNode(v, e);
      if merged.Err? {
        return Err(merged.error);
      }
      res.items := res.items[i := merged.value];
    } else {
      return Err(Panic("same config existed"));
    }
    return Ok(());
  }

  /** One more item of the patch: the list goes on from where the items before it have left it, and a failure
      is final. */
  lemma PatchRound(items: seq<Node>, ext: seq<Node>, i: nat, id: string, h: Handler)
    requires i < |ext| && PatchAll(items, ext[..i], id, h).Ok?
    ensures var r := PatchOne(PatchAll(items, ext[..i], id, h).value, ext[i], id, h);
            && PatchAll(items, ext[..i + 1], id, h) == r
            && (r.Err? ==> PatchAll(items, ext, id, h) == r)
  {
    hide PatchOne; hide PatchAll;
    assert ext[..i + 1] == ext[..i] + [ext[i]] && ext == ext[..i + 1] + ext[i + 1..];
    PatchAllLast(items, ext[..i], ext[i], id, h);
    if PatchAll(items, ext[..i + 1], id, h).Err? {
      PatchAllFails(items, ext[..i + 1], ext[i + 1..], id, h);
    }
  }

  method PatchInto(res: ListNode, ext: seq<Node>, id: string, h: Handler) returns (r: Result<(), Failure>)
    modifies res
    ensures r.Ok? ==> PatchAll(old(res.items), ext, id, h) == Ok(res.items)
    ensures r.Err? ==> PatchAll(old(res.items), ext, id, h) == Err(r.error)
  {
    hide PatchOne;
    var i := 0;
    while i < |ext|
      invariant i <= |ext|
      invariant PatchAll(old(res.items), ext[..i], id, h) == Ok(res.items)
    {
      PatchRound(old(res.items), ext, i, id, h);
      r := PatchItem(res, ext[i], id, h);
      if r.Err? {
        return;
      }
      i := i + 1;
    }
    assert ext[..i] == ext;
    return Ok(());
  }

  method PatchItem(res: ListNode, e: Node, id: string, h: Handler) returns (r: Result<(), Failure>)
    modifies res
    ensures r.Ok? ==> PatchOne(old(res.items), e, id, h) == Ok(res.items)
    ensures r.Err? ==> PatchOne(old(res.items), e, id, h) == Err(r.error)
  {
    var modes := AnalyzePatchMode(e);
    if modes.Err? {
      return Err(modes.error);
    }
    var key := KeyOf(e, id);
    if key.None? {
      return Err(BadKey);
    }
    var found := res.FindKey(id, key.value);
    if found.Err? {
      return Err(found.error);
    }
    if found.value < |res.items| {
      r := PatchAt(res, found.value, e, modes.value, h);
      return;
    }
    if NewFront in modes.value {
      res.PushFront(e);
    } else if NewBack in modes.value {
      res.PushBack(e);
    } else if NewNever in modes.value {
    } else {
      return Err(Panic("patch non-existed node"));
    }
    return Ok(());
  }

  lemma {:induction false} NewTextsLast(known: seq<Node>, ext: seq<Node>, e: Node)
    ensures NewTexts(known, ext + [e]) ==
            match NewTexts(known, ext)
            case Err(error) => Err(error)
            case Ok(added) =>
              match TextAmong(known, e)
              case Err(error) => Err(error)
              case Ok(found) => Ok(added + (if found then [] else [e]))
    decreases |ext|
  {
    hide TextAmong;
    if ext == [] {
      assert ext + [e] == [e] && [e][1..] == [];
      assert [e] + [] == [e] == ext + [e] && ext + [] == [];
    } else {
      assert (ext + [e])[1..] == ext[1..] + [e];
      NewTextsLast(known, ext[1..], e);
      var rest := NewTexts(known, ext[1..]);
      if rest.Ok? {
        Assoc([], rest.value, [e]);
        Assoc([ext[0]], rest.value, [e]);
        Assoc([], rest.value, []);
        Assoc([ext[0]], rest.value, []);
      }
    }
  }

  lemma {:induction false} NewTextsFails(known: seq<Node>, a: seq<Node>, b: seq<Node>)
    requires NewTexts(known, a).Err?
    ensures NewTexts(known, a + b) == NewTexts(known, a)
    decreases |a|
  {
    hide TextAmong;
    assert (a + b)[1..] == a[1..] + b;
    if TextAmong(known, a[0]).Ok? {
      NewTextsFails(known, a[1..], b);
    }
  }

  method CompareAndReplaceNode(res: Node, ext: Node) returns (r: Result<Node, Failure>)
    ensures r == CompareAndReplace(res, ext)
  {
    if ext.Map? && res.Map? {
      return Ok(Merge(res, ext));
    }
    if !ext.Sequence? || !res.Sequence? {
      return Ok(ext);
    }
    var merged := res.items;
    var i := 0;
    while i < |ext.items|
      invariant i <= |ext.items|
      invariant NewTexts(res.items, ext.items[..i]).Ok? &&
                  merged == res.items + NewTexts(res.items, ext.items[..i]).value
    {
      ghost var done := ext.items[..i + 1];
      assert done == ext.items[..i] + [ext.items[i]] && ext.items == done + ext.items[i + 1..];
      NewTextsLast(res.items, ext.items[..i], ext.items[i]);
      var found := IsTextAmong(res.items, ext.items[i]);
      if found.Err? {
        NewTextsFails(res.items, done, ext.items[i + 1..]);
        return Err(found.error);
      }
      if !found.value {
        merged := merged + [ext.items[i]];
      }
      i := i + 1;
    }
    assert ext.items[..i] == ext.items;
    return Ok(res.(items := merged));
  }

  method IsTextAmong(items: seq<Node>, item: Node) returns (r: Result<bool, Failure>)
    ensures r == TextAmong(items, item)
  {
    var text := KeyOf(item, "");
    var i := 0;
    while i < |items|
      invariant i <= |items| && (i > 0 ==> text.Some?)
      invariant forall j | 0 <= j < i :: KeyOf(items[j], "").Some? && KeyOf(items[j], "").value != text.value
    {
      if text.Some? {
        FindUniqueIf(items, text.value, i);
      }
      var key := KeyOf(items[i], "");
      if key.None? || text.None? {
        return Err(BadKey);
      }
      if key == text {
        return Ok(true);
      }
      i := i + 1;
    }
    if text.Some? {
      FindUniqueIf(items, text.value, i);
    }
    return Ok(false);
  }

  lemma FindUniqueIf(items: seq<Node>, text: string, i: nat)
    requires i <= |items|
    requires forall j | 0 <= j < i :: KeyOf(items[j], "").Some? && KeyOf(items[j], "").value != text
    ensures i < |items| && KeyOf(items[i], "").None? ==> Find(items, "", text) == Err(BadKey)
    ensures i == |items| || KeyOf(items[i], "") == Some(text) ==> Find(items, "", text) == Ok(i)
  {
    if i == |items| || KeyOf(items[i], "").None? || KeyOf(items[i], "").value == text {
      FindUnique(items, "", text, i);
    }
  }
}

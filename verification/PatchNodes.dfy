/** Whole nodes: which patches may be applied twice when the list may also be missing, and what a patch adds there.
    A missing list becomes the patch itself, without a look at its tags; the second time, the patch meets its own
    items. */
module PatchNodes {
  import opened Wrappers
  import opened Sequences
  import opened Yaml
  import opened KeyedList
  import opened MergeList
  import opened PatchMode
  import opened PatchList
  import opened PatchKeys
  import opened KeyMoves
  import opened PatchSteady

  // ---------- a patch on its own items ----------

  lemma StepSelf(e: Node, id: string, k: string, h: Handler)
    requires KeyOf(e, id) == Some(k) && ModesOf(e).Ok? && MergesOnce(e, id, h)
    requires !OpOf(e, id).act.Remove? && !OpOf(e, id).act.RefusePresent?
    ensures StepPatch(Some(e), e, id, k, h) == Ok(Some(e))
  {
    hide ModesOf; hide CompareAndReplace;
    CompareAgain(e, e, id);
  }

  lemma KeysOfOps(ext: seq<Node>, id: string)
    requires Proper(ext, id)
    ensures KeysOf(Ops(ext, id)) == Keys(ext, id)
  {
  }

  /** What the items make of their own values. */
  lemma OwnValues(ext: seq<Node>, id: string, h: Handler, k: string)
    requires Proper(ext, id) && (forall e | e in ext :: MergesOnce(e, id, h)) && StaysInPlace(Ops(ext, id))
    ensures FoldPatch(Lookup(ext, id, k), ext, id, k, h) == Ok(Lookup(ext, id, k))
  {
    hide ModesOf; hide StepPatch; hide FoldPatch; hide Lookup; hide MergesOnce; hide ActOf; hide AddOf; hide Distinct;
    NotNamed(ext, id, k);
    if i :| 0 <= i < |ext| && Keys(ext, id)[i] == k {
      ElementIn(ext, i);
      assert !Ops(ext, id)[i].act.Remove? && !Ops(ext, id)[i].act.RefusePresent?;
      LookupDistinct(ext, id, i);
      FoldOnce(Some(ext[i]), ext, id, i, h);
      StepSelf(ext[i], id, k, h);
    } else {
      LookupNone(ext, id, k);
      FoldUnnamed(None, ext, id, k, h);
    }
  }

  /** A patch leaves the list of its own items alone exactly if its operations do. */
  lemma OwnItems(ext: seq<Node>, id: string, h: Handler)
    requires KeepsKey(h, id) && Proper(ext, id) && forall e | e in ext :: MergesOnce(e, id, h)
    ensures PatchAll(ext, ext, id, h) == Ok(ext) <==> StaysInPlace(Ops(ext, id))
  {
    hide KeepsKey; hide ModesOf; hide PatchAll; hide FoldPatch; hide Lookup; hide MergesOnce; hide StaysInPlace;
    hide MovedAll; hide Fits; hide StepPatch;
    OnceEachKey(ext, id);
    KeysOfOps(ext, id);
    StaysExactly(Ops(ext, id));
    MovedAsOps(Keys(ext, id), ext, id);
    if PatchAll(ext, ext, id, h) == Ok(ext) {
      PatchedKeys(ext, ext, id, h);
      AcceptedFits(ext, ext, id, h);
    } else if StaysInPlace(Ops(ext, id)) {
      forall k ensures FoldPatch(Lookup(ext, id, k), ext, id, k, h) == Ok(Lookup(ext, id, k)) {
        OwnValues(ext, id, h, k);
      }
      PatchAccepted(ext, ext, id, h);
      PatchedKeys(ext, ext, id, h);
      var out := PatchAll(ext, ext, id, h).value;
      forall k ensures Lookup(out, id, k) == Lookup(ext, id, k) {
        PatchedValue(ext, ext, id, h, k);
      }
      SameLists(out, ext, id);
    }
  }

  // ---------- twice is once ----------

  /** The patch is accepted; a list that is patched has distinct keys. */
  ghost predicate NodeAccepted(res: Node, ext: Node, id: string, h: Handler) {
    && PatchListNode(res, ext, id, h).Ok?
    && (res.Sequence? ==> AllKeyed(res.items, id) && Distinct(Keys(res.items, id)))
  }

  /** A patch without a tag of its own: its items decide. */
  predicate Itemwise(ext: Node) {
    ext.Sequence? && CustomTag(ext) == ""
  }

  /** Every item can be accepted and merges once; no key occurs twice. */
  ghost predicate ProperPatch(ext: seq<Node>, id: string, h: Handler) {
    && Proper(ext, id)
    && (forall e | e in ext :: MergesOnce(e, id, h))
    && (forall op | op in Ops(ext, id) :: Usable(op))
  }

  ghost predicate SteadyNode(ext: Node, id: string)
    requires Itemwise(ext) ==> Proper(ext.items, id)
  {
    ext.Sequence? ==>
      || CustomTag(ext) == "override"
      || (CustomTag(ext) == "" && Steady(Ops(ext.items, id)) && StaysInPlace(Ops(ext.items, id)))
  }

  lemma SteadyNodeTwice(res: Node, ext: Node, id: string, h: Handler)
    requires KeepsKey(h, id) && (Itemwise(ext) ==> ProperPatch(ext.items, id, h))
    requires NodeAccepted(res, ext, id, h) && SteadyNode(ext, id)
    ensures PatchListNode(PatchListNode(res, ext, id, h).value, ext, id, h) == PatchListNode(res, ext, id, h)
  {
    hide KeepsKey; hide ModesOf; hide PatchAll; hide MergesOnce; hide Steady; hide StaysInPlace; hide Proper;
    hide CustomTag; hide Usable;
    if Itemwise(ext) {
      if IsUndefined(res) {
        OwnItems(ext.items, id, h);
      } else if res.Sequence? {
        SteadyTwice(res.items, ext.items, id, h);
      }
    }
  }

  /** The patch meets its own items when it is applied a second time to a missing list. */
  lemma MissingList(ext: Node, id: string, h: Handler)
    requires ext.Sequence?
    ensures PatchListNode(Undefined, ext, id, h) == Ok(ext)
    ensures PatchListNode(ext, ext, id, h) == Ok(ext) <==>
              || CustomTag(ext) == "override"
              || (CustomTag(ext) == "" && PatchAll(ext.items, ext.items, id, h) == Ok(ext.items))
  {
    hide PatchAll; hide CustomTag;
  }

  lemma UnsteadyNode(ext: Node, id: string, h: Handler) returns (res: Node)
    requires KeepsKey(h, id) && (Itemwise(ext) ==> ProperPatch(ext.items, id, h)) && !SteadyNode(ext, id)
    ensures NodeAccepted(res, ext, id, h)
    ensures PatchListNode(PatchListNode(res, ext, id, h).value, ext, id, h) != PatchListNode(res, ext, id, h)
  {
    hide KeepsKey; hide ModesOf; hide PatchAll; hide MergesOnce; hide Steady; hide StaysInPlace;
    hide CustomTag; hide Usable;
    MissingList(ext, id, h);
    res := Undefined;
    if CustomTag(ext) == "" {
      OwnItems(ext.items, id, h);
      if !Steady(Ops(ext.items, id)) {
        var items := UnsteadyFails(ext.items, id, h);
        res := Sequence("", items);
      }
    }
  }

  /** Exactly which patches are idempotent on all nodes that accept them, missing lists included: those that are no
      lists, those that replace the list as a whole, and those without a tag of their own that are steady and stay in
      place on their own items. */
  lemma NodeIdempotentExactly(ext: Node, id: string, h: Handler)
    requires KeepsKey(h, id) && (Itemwise(ext) ==> ProperPatch(ext.items, id, h))
    ensures (forall res | NodeAccepted(res, ext, id, h) ::
               PatchListNode(PatchListNode(res, ext, id, h).value, ext, id, h) == PatchListNode(res, ext, id, h))
            <==> SteadyNode(ext, id)
  {
    hide KeepsKey; hide PatchListNode; hide ProperPatch;
    ItemsAreProper(ext, id, h);
    if SteadyNode(ext, id) {
      forall res | NodeAccepted(res, ext, id, h)
        ensures PatchListNode(PatchListNode(res, ext, id, h).value, ext, id, h) == PatchListNode(res, ext, id, h)
      {
        SteadyNodeTwice(res, ext, id, h);
      }
    } else {
      var res := UnsteadyNode(ext, id, h);
    }
  }

  lemma ItemsAreProper(ext: Node, id: string, h: Handler)
    requires Itemwise(ext) ==> ProperPatch(ext.items, id, h)
    ensures Itemwise(ext) ==> Proper(ext.items, id)
  {
  }

  /** The same for the handler that merges maps. */
  lemma NodeIdempotentWithMaps(ext: Node, id: string)
    requires Itemwise(ext) ==> Proper(ext.items, id) && forall op | op in Ops(ext.items, id) :: Usable(op)
    ensures (forall res | NodeAccepted(res, ext, id, MERGE_MAP) ::
               PatchListNode(PatchListNode(res, ext, id, MERGE_MAP).value, ext, id, MERGE_MAP)
               == PatchListNode(res, ext, id, MERGE_MAP))
            <==> SteadyNode(ext, id)
  {
    hide KeepsKey; hide ModesOf; hide PatchListNode; hide Idempotent; hide SteadyNode; hide NodeAccepted;
    MergeMapKeepsKey(id);
    if Itemwise(ext) {
      forall e | e in ext.items ensures MergesOnce(e, id, MERGE_MAP) {
        MergeMapIdempotent(e, id);
      }
    }
    NodeIdempotentExactly(ext, id, MERGE_MAP);
  }

  // ---------- what is added ----------

  /** An item of a patch whose element does not exist becomes an element, with the value it has in the patch, exactly
      if the list does not exist either, or its tag says `new`, `new.front` or `new.back`; otherwise there is none
      with its key afterwards. */
  lemma AddedExactly(res: Node, ext: Node, id: string, h: Handler, i: nat)
    requires KeepsKey(h, id) && Itemwise(ext) && i < |ext.items|
    requires AllKeyed(ext.items, id) && Distinct(Keys(ext.items, id))
    requires IsUndefined(res) || res.Sequence?
    requires NodeAccepted(res, ext, id, h)
    requires res.Sequence? ==> Keys(ext.items, id)[i] !in Keys(res.items, id)
    ensures PatchListNode(res, ext, id, h).value.Sequence?
    ensures var o := Lookup(PatchListNode(res, ext, id, h).value.items, id, Keys(ext.items, id)[i]);
            var modes := ModesOf(ext.items[i]);
            if IsUndefined(res) || (modes.Ok? && AddOf(modes.value) in {AddFront, AddBack})
            then o == Some(ext.items[i])
            else o == None
  {
    hide KeepsKey; hide ModesOf; hide PatchAll; hide FoldPatch; hide Lookup; hide Distinct; hide CustomTag;
    var e, k := ext.items[i], Keys(ext.items, id)[i];
    if IsUndefined(res) {
      LookupDistinct(ext.items, id, i);
    } else {
      LookupNone(res.items, id, k);
      PatchedValue(res.items, ext.items, id, h, k);
      FoldOnce(None, ext.items, id, i, h);
    }
  }
}

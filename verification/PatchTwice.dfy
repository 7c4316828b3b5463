/** When applying a patch a second time changes nothing. */
module PatchTwice {
  import opened Wrappers
  import opened Sequences
  import opened Yaml
  import opened KeyedList
  import opened MergeList
  import opened SplitTrim
  import opened PatchMode
  import opened PatchList
  import PatchKeys

  // ---------- where a key is found after a change ----------

  lemma FindFront(t: seq<Node>, e: Node, id: string, k: string)
    requires KeyOf(e, id).Some? && Find(t, id, k).Ok?
    ensures Find([e] + t, id, k) == Ok(if KeyOf(e, id).value == k then 0 else Find(t, id, k).value + 1)
  {
    assert ([e] + t)[1..] == t;
  }

  lemma FindBack(t: seq<Node>, e: Node, id: string, k: string)
    requires KeyOf(e, id).Some? && Find(t, id, k).Ok?
    ensures Find(t + [e], id, k) ==
            Ok(if Find(t, id, k).value < |t| || KeyOf(e, id).value == k then Find(t, id, k).value else |t| + 1)
  {
    var i := Find(t, id, k).value;
    FindUnique(t + [e], id, k, if i < |t| || KeyOf(e, id).value == k then i else |t| + 1);
  }

  lemma {:induction false} FindReplaced(t: seq<Node>, i: nat, v: Node, id: string, k: string)
    requires i < |t| && KeyOf(v, id) == KeyOf(t[i], id)
    ensures Find(t[i := v], id, k) == Find(t, id, k)
  {
    if i > 0 {
      assert t[i := v][1..] == t[1..][i - 1 := v];
      FindReplaced(t[1..], i - 1, v, id, k);
    }
  }

  // ---------- patches that override in place ----------

  /** The item overrides an element in place, if there is one: `override`, `new+override`, `new.never`, no tag. */
  ghost predicate InPlace(e: Node) {
    ModesOf(e).Ok? && Override in ModesOf(e).value
  }

  /** The same, with a tag: the element is replaced as a whole. */
  ghost predicate Replaces(e: Node) {
    InPlace(e) && Explicit in ModesOf(e).value
  }

  /** The item leaves a list alone that has no element with its key. */
  ghost predicate NeverAdds(e: Node) {
    && ModesOf(e).Ok? && NewNever in ModesOf(e).value
    && NewFront !in ModesOf(e).value && NewBack !in ModesOf(e).value
  }

  /** Both lists have an element with the key or both have none, and it is the same. */
  ghost predicate Agree(t: seq<Node>, t': seq<Node>, id: string, k: string) {
    Find(t, id, k).Ok? ==>
      && Find(t', id, k).Ok?
      && var i, i' := Find(t, id, k).value, Find(t', id, k).value;
        if i < |t| then i' < |t'| && t'[i'] == t[i] else i' == |t'|
  }

  /** What one item that overrides in place can do to a list. */
  lemma InPlaceStep(t: seq<Node>, e: Node, id: string, h: Handler)
    requires KeepsKey(h, id) && InPlace(e) && PatchOne(t, e, id, h).Ok?
    ensures KeyOf(e, id).Some? && Find(t, id, KeyOf(e, id).value).Ok?
    ensures var j, t' := Find(t, id, KeyOf(e, id).value).value, PatchOne(t, e, id, h).value;
            if j < |t| then
              && var v := Overridden(t[j], e, ModesOf(e).value, h);
                v.Ok? && KeyOf(v.value, id) == KeyOf(e, id) && t' == t[j := v.value]
            else t' == [e] + t || t' == t + [e] || (t' == t && NeverAdds(e))
  {
    hide ModesOf; hide Find;
    var j := Find(t, id, KeyOf(e, id).value).value;
    if j < |t| {
      PatchKeys.ReplacementKeepsKey(t[j], e, ModesOf(e).value, id, h);
    }
  }

  /** An item that overrides in place has no influence on other keys. */
  lemma OtherKeysStay(t: seq<Node>, e: Node, id: string, h: Handler, k: string)
    requires KeepsKey(h, id) && InPlace(e) && PatchOne(t, e, id, h).Ok? && KeyOf(e, id) != Some(k)
    ensures Agree(t, PatchOne(t, e, id, h).value, id, k)
  {
    hide ModesOf; hide PatchOne; hide KeepsKey; hide Find; hide Overridden; hide InPlace; hide NeverAdds;
    InPlaceStep(t, e, id, h);
    var j, t' := Find(t, id, KeyOf(e, id).value).value, PatchOne(t, e, id, h).value;
    if Find(t, id, k).Ok? {
      if j < |t| {
        FindReplaced(t, j, t'[j], id, k);
      } else {
        FindFront(t, e, id, k);
        FindBack(t, e, id, k);
      }
    }
  }

  /** After an item that overrides in place, its key has what the item made of it, or the item adds nothing. */
  lemma OwnKey(t: seq<Node>, e: Node, id: string, h: Handler)
    requires KeepsKey(h, id) && InPlace(e) && PatchOne(t, e, id, h).Ok?
    ensures KeyOf(e, id).Some?
    ensures var k, t' := KeyOf(e, id).value, PatchOne(t, e, id, h).value;
            && Find(t, id, k).Ok? && Find(t', id, k).Ok?
            && var i, i' := Find(t, id, k).value, Find(t', id, k).value;
              if i < |t| then i' < |t'| && Overridden(t[i], e, ModesOf(e).value, h) == Ok(t'[i'])
              else (i' < |t'| && t'[i'] == e) || (i' == |t'| && NeverAdds(e))
  {
    hide ModesOf; hide PatchOne; hide KeepsKey; hide Find; hide Overridden; hide InPlace; hide NeverAdds;
    InPlaceStep(t, e, id, h);
    var k, t' := KeyOf(e, id).value, PatchOne(t, e, id, h).value;
    var j := Find(t, id, k).value;
    if j < |t| {
      FindReplaced(t, j, t'[j], id, k);
    } else {
      FindFront(t, e, id, k);
      FindBack(t, e, id, k);
    }
  }

  // ---------- every item replaces ----------

  /** The last item with the key. */
  ghost function Last(ext: seq<Node>, id: string, k: string): Option<Node> {
    if ext == [] then None
    else if KeyOf(ext[|ext| - 1], id) == Some(k) then Some(ext[|ext| - 1])
    else Last(ext[..|ext| - 1], id, k)
  }

  /** The key has the value of the last item that names it, or is absent and no item adds it. */
  ghost predicate Decided(t: seq<Node>, ext: seq<Node>, id: string, k: string) {
    Last(ext, id, k).Some? ==>
      && Find(t, id, k).Ok?
      && var i := Find(t, id, k).value;
        if i < |t| then Last(ext, id, k) == Some(t[i])
        else forall e | e in ext && KeyOf(e, id) == Some(k) :: NeverAdds(e)
  }

  lemma {:induction false} LastNone(ext: seq<Node>, id: string, k: string)
    ensures Last(ext, id, k).None? <==> forall e | e in ext :: KeyOf(e, id) != Some(k)
  {
    if ext != [] {
      LastNone(ext[..|ext| - 1], id, k);
      assert ext == ext[..|ext| - 1] + [ext[|ext| - 1]];
    }
  }

  lemma DecidesOne(t: seq<Node>, p: seq<Node>, e: Node, id: string, h: Handler, k: string)
    requires KeepsKey(h, id) && Replaces(e) && PatchOne(t, e, id, h).Ok? && Decided(t, p, id, k)
    ensures Decided(PatchOne(t, e, id, h).value, p + [e], id, k)
  {
    hide ModesOf; hide PatchOne; hide KeepsKey; hide Find;
    assert (p + [e])[..|p|] == p;
    if KeyOf(e, id) == Some(k) {
      OwnKey(t, e, id, h);
      LastNone(p, id, k);
    } else {
      OtherKeysStay(t, e, id, h, k);
    }
  }

  lemma NothingDecided(t: seq<Node>, id: string, k: string)
    ensures Decided(t, [], id, k)
  {
  }

  lemma {:induction false} FirstPass(items: seq<Node>, ext: seq<Node>, id: string, h: Handler, j: nat, k: string)
    requires KeepsKey(h, id) && PatchAll(items, ext, id, h).Ok? && (forall e | e in ext :: Replaces(e)) && j <= |ext|
    ensures PatchAll(items, ext[..j], id, h).Ok? && Decided(PatchAll(items, ext[..j], id, h).value, ext[..j], id, k)
    decreases j
  {
    hide ModesOf; hide PatchOne; hide KeepsKey; hide Find; hide Decided;
    if j == 0 {
      NothingDecided(items, id, k);
    } else {
      FirstPass(items, ext, id, h, j - 1, k);
      PatchRound(items, ext, j - 1, id, h);
      DecidesOne(PatchAll(items, ext[..j - 1], id, h).value, ext[..j - 1], ext[j - 1], id, h, k);
      assert ext[..j] == ext[..j - 1] + [ext[j - 1]];
    }
  }

  /** Every item finds its key, or never adds it. */
  ghost predicate Receives(t: seq<Node>, ext: seq<Node>, id: string) {
    forall e | e in ext ::
      && KeyOf(e, id).Some? && Find(t, id, KeyOf(e, id).value).Ok?
      && (Find(t, id, KeyOf(e, id).value).value == |t| ==> NeverAdds(e))
  }

  /** The list with the first element of each named key replaced by the last item that names it. */
  ghost function Overlaid(t: seq<Node>, ext: seq<Node>, id: string, i: nat): Node
    requires i < |t|
  {
    if KeyOf(t[i], id).Some? && Find(t, id, KeyOf(t[i], id).value) == Ok(i)
       && Last(ext, id, KeyOf(t[i], id).value).Some?
    then Last(ext, id, KeyOf(t[i], id).value).value
    else t[i]
  }

  ghost predicate Overlays(t': seq<Node>, t: seq<Node>, ext: seq<Node>, id: string) {
    && |t'| == |t|
    && (forall i | 0 <= i < |t| :: t'[i] == Overlaid(t, ext, id, i))
    && (forall k :: Find(t', id, k) == Find(t, id, k))
  }

  lemma OverlaidNext(t: seq<Node>, p: seq<Node>, e: Node, id: string, i: nat)
    requires i < |t| && KeyOf(e, id).Some?
    ensures Overlaid(t, p + [e], id, i) ==
            if KeyOf(t[i], id) == KeyOf(e, id) && Find(t, id, KeyOf(e, id).value) == Ok(i) then e
            else Overlaid(t, p, id, i)
  {
    assert (p + [e])[..|p|] == p;
  }

  /** Replacing an element of the overlaid list. */
  lemma OverlayReplaced(t': seq<Node>, t: seq<Node>, p: seq<Node>, e: Node, id: string, j: nat)
    requires Overlays(t', t, p, id) && KeyOf(e, id).Some? && j < |t| && Find(t, id, KeyOf(e, id).value) == Ok(j)
    ensures Overlays(t'[j := e], t, p + [e], id)
  {
    hide Overlaid;
    assert Find(t', id, KeyOf(e, id).value) == Ok(j);
    forall k ensures Find(t'[j := e], id, k) == Find(t, id, k) {
      FindReplaced(t', j, e, id, k);
    }
    forall i | 0 <= i < |t| ensures t'[j := e][i] == Overlaid(t, p + [e], id, i) {
      OverlaidNext(t, p, e, id, i);
    }
  }

  lemma OverlayKept(t': seq<Node>, t: seq<Node>, p: seq<Node>, e: Node, id: string)
    requires Overlays(t', t, p, id) && KeyOf(e, id).Some? && Find(t, id, KeyOf(e, id).value) == Ok(|t|)
    ensures Overlays(t', t, p + [e], id)
  {
    hide Overlaid;
    forall i | 0 <= i < |t| ensures t'[i] == Overlaid(t, p + [e], id, i) {
      OverlaidNext(t, p, e, id, i);
    }
  }

  lemma OverlayOne(t': seq<Node>, t: seq<Node>, p: seq<Node>, e: Node, id: string, h: Handler)
    requires Overlays(t', t, p, id) && Replaces(e) && Receives(t, [e], id)
    ensures PatchOne(t', e, id, h).Ok? && Overlays(PatchOne(t', e, id, h).value, t, p + [e], id)
  {
    hide ModesOf; hide Overlaid;
    assert e in [e];
    var key := KeyOf(e, id).value;
    assert Find(t', id, key) == Find(t, id, key);
    hide Overlays;
    var j := Find(t', id, key).value;
    if j < |t'| {
      OverlayReplaced(t', t, p, e, id, j);
    } else {
      OverlayKept(t', t, p, e, id);
    }
  }

  lemma NothingOverlaid(t: seq<Node>, id: string)
    ensures Overlays(t, t, [], id)
  {
  }

  lemma {:induction false} OverlayAll(t: seq<Node>, ext: seq<Node>, id: string, h: Handler, j: nat)
    requires (forall e | e in ext :: Replaces(e)) && Receives(t, ext, id) && j <= |ext|
    ensures PatchAll(t, ext[..j], id, h).Ok? && Overlays(PatchAll(t, ext[..j], id, h).value, t, ext[..j], id)
    decreases j
  {
    hide ModesOf; hide PatchOne; hide Find; hide Overlays; hide Replaces; hide NeverAdds;
    if j == 0 {
      NothingOverlaid(t, id);
    } else {
      OverlayAll(t, ext, id, h, j - 1);
      PatchRound(t, ext, j - 1, id, h);
      assert Receives(t, [ext[j - 1]], id);
      OverlayOne(PatchAll(t, ext[..j - 1], id, h).value, t, ext[..j - 1], ext[j - 1], id, h);
      assert ext[..j] == ext[..j - 1] + [ext[j - 1]];
    }
  }

  lemma {:induction false} PatchNeedsKeys(items: seq<Node>, ext: seq<Node>, id: string, h: Handler)
    requires PatchAll(items, ext, id, h).Ok?
    ensures AllKeyed(ext, id)
    decreases |ext|
  {
    if ext != [] {
      PatchNeedsKeys(PatchOne(items, ext[0], id, h).value, ext[1..], id, h);
      assert forall i | 0 < i < |ext| :: ext[i] == ext[1..][i - 1];
    }
  }

  lemma FirstPassReceives(items: seq<Node>, ext: seq<Node>, id: string, h: Handler)
    requires KeepsKey(h, id) && PatchAll(items, ext, id, h).Ok? && forall e | e in ext :: Replaces(e)
    ensures Receives(PatchAll(items, ext, id, h).value, ext, id)
  {
    hide ModesOf; hide PatchOne; hide KeepsKey; hide Find; hide Replaces;
    var t := PatchAll(items, ext, id, h).value;
    assert ext[..|ext|] == ext;
    PatchNeedsKeys(items, ext, id, h);
    forall e | e in ext ensures Receives(t, [e], id) && KeyOf(e, id).Some? {
      var k := KeyOf(e, id).value;
      FirstPass(items, ext, id, h, |ext|, k);
      LastNone(ext, id, k);
    }
    forall e | e in ext
      ensures KeyOf(e, id).Some? && Find(t, id, KeyOf(e, id).value).Ok?
      ensures Find(t, id, KeyOf(e, id).value).value == |t| ==> NeverAdds(e)
    {
      assert e in [e] && Receives(t, [e], id);
    }
  }

  /** A patch whose items all carry an override tag that leaves elements in their places, such as `new+override`,
      `new.front+override` or `new.back+override`, does the same twice as once; keys need not be distinct. */
  lemma ReplaceTwice(items: seq<Node>, ext: seq<Node>, id: string, h: Handler)
    requires KeepsKey(h, id) && PatchAll(items, ext, id, h).Ok? && forall e | e in ext :: Replaces(e)
    ensures PatchAll(PatchAll(items, ext, id, h).value, ext, id, h) == PatchAll(items, ext, id, h)
  {
    hide ModesOf; hide PatchOne; hide KeepsKey; hide PatchAll; hide Receives; hide Replaces;
    var t := PatchAll(items, ext, id, h).value;
    assert ext[..|ext|] == ext;
    FirstPassReceives(items, ext, id, h);
    OverlayAll(t, ext, id, h, |ext|);
    var t' := PatchAll(t, ext, id, h).value;
    forall i | 0 <= i < |t| ensures t'[i] == t[i] {
      if KeyOf(t[i], id).Some? {
        FirstPass(items, ext, id, h, |ext|, KeyOf(t[i], id).value);
      }
    }
    assert t' == t;
  }

  // ---------- no key is named twice ----------

  /** The item changes nothing. */
  ghost predicate Inert(t: seq<Node>, e: Node, id: string, h: Handler) {
    && InPlace(e) && KeyOf(e, id).Some? && Find(t, id, KeyOf(e, id).value).Ok?
    && var i := Find(t, id, KeyOf(e, id).value).value;
      if i < |t| then Overridden(t[i], e, ModesOf(e).value, h) == Ok(t[i]) else NeverAdds(e)
  }

  /** The item overrides in place, and where the handler merges, merging once more does nothing. */
  ghost predicate InPlaceAgain(e: Node, id: string, h: Handler) {
    InPlace(e) && (Explicit in ModesOf(e).value || Idempotent(h, e, id))
  }

  lemma InertOnce(t: seq<Node>, e: Node, id: string, h: Handler)
    requires Inert(t, e, id, h)
    ensures PatchOne(t, e, id, h) == Ok(t)
  {
    hide ModesOf;
    var i := Find(t, id, KeyOf(e, id).value).value;
    if i < |t| {
      assert t[i := t[i]] == t;
    }
  }

  lemma {:induction false} InertAll(t: seq<Node>, ext: seq<Node>, id: string, h: Handler)
    requires forall e | e in ext :: Inert(t, e, id, h)
    ensures PatchAll(t, ext, id, h) == Ok(t)
    decreases |ext|
  {
    hide Inert; hide PatchOne;
    if ext != [] {
      assert ext[0] in ext;
      InertOnce(t, ext[0], id, h);
      InertAll(t, ext[1..], id, h);
    }
  }

  lemma BecomesInert(t: seq<Node>, e: Node, id: string, h: Handler)
    requires KeepsKey(h, id) && InPlaceAgain(e, id, h) && PatchOne(t, e, id, h).Ok?
    ensures Inert(PatchOne(t, e, id, h).value, e, id, h)
  {
    hide ModesOf; hide PatchOne; hide KeepsKey; hide Find;
    OwnKey(t, e, id, h);
  }

  lemma StaysInert(t: seq<Node>, d: Node, e: Node, id: string, h: Handler)
    requires KeepsKey(h, id) && InPlace(e) && PatchOne(t, e, id, h).Ok?
    requires Inert(t, d, id, h) && KeyOf(d, id) != KeyOf(e, id)
    ensures Inert(PatchOne(t, e, id, h).value, d, id, h)
  {
    hide ModesOf; hide PatchOne; hide KeepsKey; hide Find;
    OtherKeysStay(t, e, id, h, KeyOf(d, id).value);
  }

  lemma {:induction false} AllBecomeInert(items: seq<Node>, ext: seq<Node>, id: string, h: Handler, j: nat)
    requires KeepsKey(h, id) && PatchAll(items, ext, id, h).Ok? && forall e | e in ext :: InPlaceAgain(e, id, h)
    requires AllKeyed(ext, id) && Distinct(Keys(ext, id)) && j <= |ext|
    ensures PatchAll(items, ext[..j], id, h).Ok?
    ensures forall i | 0 <= i < j :: Inert(PatchAll(items, ext[..j], id, h).value, ext[i], id, h)
    decreases j
  {
    hide ModesOf; hide PatchOne; hide KeepsKey; hide Inert; hide Idempotent;
    if j > 0 {
      AllBecomeInert(items, ext, id, h, j - 1);
      PatchRound(items, ext, j - 1, id, h);
      var t, e := PatchAll(items, ext[..j - 1], id, h).value, ext[j - 1];
      BecomesInert(t, e, id, h);
      forall i | 0 <= i < j - 1 ensures Inert(PatchOne(t, e, id, h).value, ext[i], id, h) {
        assert Keys(ext, id)[i] != Keys(ext, id)[j - 1];
        StaysInert(t, ext[i], e, id, h);
      }
    }
  }

  /** A patch that overrides in place, merging where there is no tag, does the same twice as once if it names no
      key twice. */
  lemma OverrideTwice(items: seq<Node>, ext: seq<Node>, id: string, h: Handler)
    requires KeepsKey(h, id) && PatchAll(items, ext, id, h).Ok? && forall e | e in ext :: InPlaceAgain(e, id, h)
    requires AllKeyed(ext, id) && Distinct(Keys(ext, id))
    ensures PatchAll(PatchAll(items, ext, id, h).value, ext, id, h) == PatchAll(items, ext, id, h)
  {
    hide ModesOf; hide PatchOne; hide KeepsKey; hide Inert; hide Idempotent; hide PatchAll;
    AllBecomeInert(items, ext, id, h, |ext|);
    assert ext[..|ext|] == ext;
    InertAll(PatchAll(items, ext, id, h).value, ext, id, h);
  }

  // ---------- the whole node ----------

  /** For every key the first element is also the last. */
  ghost predicate FirstIsLast(ext: seq<Node>, id: string) {
    forall i | 0 <= i < |ext| && KeyOf(ext[i], id).Some? ::
      Lookup(ext, id, KeyOf(ext[i], id).value) == Last(ext, id, KeyOf(ext[i], id).value)
  }

  /** What a patch on a missing list must satisfy, since the list becomes the patch itself: the second time it is
      applied to itself. */
  ghost predicate StableAlone(ext: Node, id: string)
    requires ext.Sequence?
  {
    CustomTag(ext) == "override" || (CustomTag(ext) == "" && AllKeyed(ext.items, id) && FirstIsLast(ext.items, id))
  }

  lemma {:induction false} FindsItself(ext: seq<Node>, id: string, i: nat)
    requires AllKeyed(ext, id) && i < |ext|
    ensures Find(ext, id, KeyOf(ext[i], id).value).Ok? && Find(ext, id, KeyOf(ext[i], id).value).value <= i
  {
    if i > 0 {
      assert ext[1..][i - 1] == ext[i];
      FindsItself(ext[1..], id, i - 1);
    }
  }

  lemma PatchSelf(ext: seq<Node>, id: string, h: Handler)
    requires AllKeyed(ext, id) && forall e | e in ext :: Replaces(e)
    ensures PatchAll(ext, ext, id, h) == Ok(ext) <==> FirstIsLast(ext, id)
  {
    hide ModesOf; hide PatchOne; hide PatchAll; hide Find; hide Replaces; hide Lookup; hide NeverAdds;
    forall e | e in ext
      ensures KeyOf(e, id).Some? && Find(ext, id, KeyOf(e, id).value).Ok? &&
                Find(ext, id, KeyOf(e, id).value).value < |ext|
    {
      var i :| 0 <= i < |ext| && ext[i] == e;
      FindsItself(ext, id, i);
    }
    OverlayAll(ext, ext, id, h, |ext|);
    assert ext[..|ext|] == ext;
    var t := PatchAll(ext, ext, id, h).value;
    forall i | 0 <= i < |ext|
      ensures var k := KeyOf(ext[i], id).value; var f := Find(ext, id, k).value;
              f < |ext| && Lookup(ext, id, k) == Some(ext[f]) && Last(ext, id, k) == Some(t[f])
    {
      var k := KeyOf(ext[i], id).value;
      LookupFinds(ext, id, k);
      LastNone(ext, id, k);
      assert t[Find(ext, id, k).value] == Overlaid(ext, ext, id, Find(ext, id, k).value);
    }
    if FirstIsLast(ext, id) {
      forall i | 0 <= i < |ext| ensures t[i] == ext[i] {
        assert t[i] == Overlaid(ext, ext, id, i);
      }
      assert t == ext;
    }
  }

  /** Exactly when a patch whose items all replace is idempotent: always, except that on a missing list its own
      tag and its repeated keys matter. */
  lemma PatchNodeTwice(res: Node, ext: Node, id: string, h: Handler)
    requires KeepsKey(h, id) && PatchListNode(res, ext, id, h).Ok?
    requires ext.Sequence? ==> forall e | e in ext.items :: Replaces(e)
    ensures PatchListNode(PatchListNode(res, ext, id, h).value, ext, id, h) == PatchListNode(res, ext, id, h)
            <==> (IsUndefined(res) && ext.Sequence? ==> StableAlone(ext, id))
  {
    hide PatchAll; hide KeepsKey; hide Replaces; hide FirstIsLast; hide CustomTag; hide AllKeyed;
    if ext.Sequence? && IsUndefined(res) {
      if AllKeyed(ext.items, id) {
        PatchSelf(ext.items, id, h);
      } else if PatchAll(ext.items, ext.items, id, h).Ok? {
        PatchNeedsKeys(ext.items, ext.items, id, h);
      }
    } else if ext.Sequence? && res.Sequence? && PatchAll(res.items, ext.items, id, h).Ok? {
      ReplaceTwice(res.items, ext.items, id, h);
    }
  }

  // ---------- which tags these are ----------

  /** A tag made of clean words replaces in place if one of the words is `override`, or if `new.never` is alone. */
  lemma WordsThatReplace(n: Node, words: seq<string>)
    requires !n.Undefined? && n.tag == TAG_PREFIX + Join(words, '+') && ModesOf(n).Ok?
    requires words != [] && forall w | w in words :: Clean(w, '+')
    ensures Replaces(n) <==> Override in ModeSet(words) || ModeSet(words) == {NewNever}
  {
    hide ModesOf; hide ModeSet; hide CustomTag; hide Clean; hide Join;
    TagMeansItsWords(n, words, words);
    WordsMeaning(words);
  }

  lemma NewAndOverride(word: string, m: Mode)
    requires word in {"new", "new.front", "new.back", "new.never"} && ModeOfWord(word) == Some(m)
    ensures GroupOf(m) == News && ModeOfWord("override") == Some(Override) && !Conflict({m, Override})
    ensures Clean("override", '+') && Clean(word, '+')
  {
    AtMostOne({m, Override}, {Delete, Override, Skip});
  }

  /** The documented combinations of adding and overriding. */
  lemma NewPlusOverrideReplaces(n: Node, word: string)
    requires word in {"new", "new.front", "new.back", "new.never"}
    requires !n.Undefined? && n.tag == TAG_PREFIX + word + "+override"
    ensures Replaces(n)
  {
    var m := ModeOfWord(word).value;
    NewAndOverride(word, m);
    Assoc(TAG_PREFIX, word, "+override");
    assert "+" + "override" == "+override";
    hide ModesOf; hide Clean; hide ModeOfWord; hide Conflict;
    TwoWords(n, word, "override", m, Override);
  }

  function Element(value: string): Node {
    Map(TAG_PREFIX + "new" + "+override", map["name" := Scalar("", "a"), "value" := Scalar("", value)])
  }

  /** A missing list patched with two elements of the same name: the second time, the first of them takes the
      value of the second. */
  lemma RepeatedKeyChanges()
    ensures var ext := Sequence("", [Element("1"), Element("2")]);
            && PatchListNode(Undefined, ext, "name", MERGE_MAP) == Ok(ext)
            && PatchListNode(ext, ext, "name", MERGE_MAP) != Ok(ext)
  {
    var items := [Element("1"), Element("2")];
    var ext := Sequence("", items);
    forall e | e in items ensures Replaces(e) {
      NewPlusOverrideReplaces(e, "new");
    }
    MergeMapKeepsKey("name");
    assert KeyOf(items[0], "name") == KeyOf(items[1], "name") == Some("a");
    assert Lookup(items, "name", "a") == Some(items[0]) && Last(items, "name", "a") == Some(items[1]);
    assert items[0].fields["value"] != items[1].fields["value"];
    assert !FirstIsLast(items, "name");
    assert CustomTag(ext) == "";
    PatchNodeTwice(Undefined, ext, "name", MERGE_MAP);
  }
}

/** Patches that are not idempotent, each for one of the reasons that `KeyMoves.Stable`, `KeyMoves.InOrder` and
    `KeyMoves.StaysInPlace` name. */
module PatchExamples {
  import opened Wrappers
  import opened Sequences
  import opened Yaml
  import opened KeyedList
  import opened MergeList
  import opened SplitTrim
  import opened PatchMode
  import opened PatchList
  import opened PatchWords

  // ---------- the items ----------

  const PLAIN := Scalar("", "a")
  const OTHER := Scalar("", "x")
  const ADD_OR_DELETE := Scalar(TAG_PREFIX + ("new" + ("+" + "delete")), "a")
  const BACK_THEN_FRONT := Scalar(TAG_PREFIX + ("new.back" + ("+" + "override.front")), "a")
  const ADD_OR_REPLACE := Scalar(TAG_PREFIX + ("new" + ("+" + "override")), "b")
  const TO_FRONT := Scalar(TAG_PREFIX + "override.front", "a")
  const ALSO_TO_FRONT := Scalar(TAG_PREFIX + "override.front", "b")
  const NEVER_OR_DELETE := Scalar(TAG_PREFIX + ("new.never" + ("+" + "delete")), "a")

  lemma Fitting()
    ensures !Conflict({NewFront, Delete}) && !Conflict({NewBack, OverrideFront})
    ensures !Conflict({NewFront, Override}) && !Conflict({NewNever, Delete})
  {
    AtMostOne({NewFront, Delete}, {Delete, Override, Skip});
    AtMostOne({NewBack, OverrideFront}, {Delete, Override, Skip});
    AtMostOne({NewFront, Override}, {Delete, Override, Skip});
    AtMostOne({NewNever, Delete}, {Delete, Override, Skip});
  }

  lemma ModeWordsAreClean()
    ensures forall w | w in {"new", "new.back", "new.never", "delete", "override", "override.front"} :: Clean(w, '+')
  {
  }

  lemma Meanings()
    ensures ModesOf(ADD_OR_DELETE) == Ok({NewFront, Delete, Explicit})
    ensures ModesOf(BACK_THEN_FRONT) == Ok({NewBack, OverrideFront, Explicit})
    ensures ModesOf(ADD_OR_REPLACE) == Ok({NewFront, Override, Explicit})
    ensures ModesOf(TO_FRONT) == Ok({OverrideFront, Explicit}) == ModesOf(ALSO_TO_FRONT)
    ensures ModesOf(NEVER_OR_DELETE) == Ok({NewNever, Delete, Explicit})
  {
    hide ModesOf; hide Clean; hide Conflict;
    Fitting();
    ModeWordsAreClean();
    TwoWords(ADD_OR_DELETE, "new", "delete", NewFront, Delete);
    TwoWords(BACK_THEN_FRONT, "new.back", "override.front", NewBack, OverrideFront);
    TwoWords(ADD_OR_REPLACE, "new", "override", NewFront, Override);
    TwoWords(NEVER_OR_DELETE, "new.never", "delete", NewNever, Delete);
    OneWord(TO_FRONT, "override.front", OverrideFront);
    OneWord(ALSO_TO_FRONT, "override.front", OverrideFront);
  }

  lemma AllOfTwo(items: seq<Node>, d: Node, e: Node, h: Handler)
    ensures PatchAll(items, [e], "", h) == PatchOne(items, e, "", h)
    ensures PatchAll(items, [d, e], "", h) ==
            match PatchOne(items, d, "", h)
            case Err(error) => Err(error)
            case Ok(items') => PatchOne(items', e, "", h)
  {
    hide PatchOne;
    assert [d, e][1..] == [e];
    AllOfOne(items, e, "", h);
    if PatchOne(items, d, "", h).Ok? {
      AllOfOne(PatchOne(items, d, "", h).value, e, "", h);
    }
  }

  lemma FindInTwo(d: Node, e: Node)
    requires d.Scalar? && e.Scalar? && d.text != e.text
    ensures Find([], "", d.text) == Ok(0) && Find([d], "", d.text) == Ok(0) && Find([d], "", e.text) == Ok(1)
    ensures Find([d, e], "", d.text) == Ok(0) && Find([d, e], "", e.text) == Ok(1)
    ensures Without([d], 0) == [] && Without([d, e], 0) == [e] && Without([d, e], 1) == [d]
  {
    assert [d][1..] == [] && [d, e][1..] == [e] && [e][1..] == [];
  }

  // ---------- what they do ----------

  /** `new+delete` adds the element the first time and removes it the second. */
  lemma AddsThenDeletes(h: Handler)
    ensures PatchAll([], [ADD_OR_DELETE], "", h) == Ok([ADD_OR_DELETE])
    ensures PatchAll([ADD_OR_DELETE], [ADD_OR_DELETE], "", h) == Ok([])
  {
    hide ModesOf; hide Find; hide Without;
    Meanings();
    var e := ADD_OR_DELETE;
    FindInTwo(e, OTHER);
    AllOfTwo([], e, e, h);
    AllOfTwo([e], e, e, h);
    assert [e] + [] == [e];
  }

  /** `new.back+override.front` adds the element behind the others and then moves it before them. */
  lemma AddsThenMoves(h: Handler)
    ensures PatchAll([OTHER], [BACK_THEN_FRONT], "", h) == Ok([OTHER, BACK_THEN_FRONT])
    ensures PatchAll([OTHER, BACK_THEN_FRONT], [BACK_THEN_FRONT], "", h) == Ok([BACK_THEN_FRONT, OTHER])
  {
    hide ModesOf; hide Find; hide Without;
    Meanings();
    var e := BACK_THEN_FRONT;
    FindInTwo(OTHER, e);
    AllOfTwo([OTHER], e, e, h);
    AllOfTwo([OTHER, e], e, e, h);
    assert [OTHER] + [e] == [OTHER, e] && [e] + [OTHER] == [e, OTHER];
  }

  /** `new+override` after `override.front`: the first time the new element comes before the one that was moved, the
      second time behind it. */
  lemma AddsBeforeMoved(h: Handler)
    ensures var patch := [TO_FRONT, ADD_OR_REPLACE];
            && PatchAll([PLAIN], patch, "", h) == Ok([ADD_OR_REPLACE, TO_FRONT])
            && PatchAll([ADD_OR_REPLACE, TO_FRONT], patch, "", h) == Ok([TO_FRONT, ADD_OR_REPLACE])
  {
    hide ModesOf; hide Find; hide Without;
    Meanings();
    var d, e := TO_FRONT, ADD_OR_REPLACE;
    FindInTwo(PLAIN, OTHER);
    FindInTwo(d, e);
    FindInTwo(e, d);
    AllOfTwo([PLAIN], d, e, h);
    AllOfTwo([e, d], d, e, h);
    assert [d] + [] == [d] && [e] + [d] == [e, d] && [d] + [e] == [d, e];
    assert [d, e][1 := e] == [d, e];
  }

  /** Two elements that are moved to the front: a missing list becomes the patch, and the second time they change
      places. */
  lemma MissingListTurns(h: Handler)
    ensures var patch := Sequence("", [TO_FRONT, ALSO_TO_FRONT]);
            && PatchListNode(Undefined, patch, "", h) == Ok(patch)
            && PatchListNode(patch, patch, "", h) == Ok(Sequence("", [ALSO_TO_FRONT, TO_FRONT]))
  {
    hide ModesOf; hide Find; hide Without;
    Meanings();
    var d, e := TO_FRONT, ALSO_TO_FRONT;
    FindInTwo(d, e);
    AllOfTwo([d, e], d, e, h);
    assert [d] + [e] == [d, e] && [e] + [d] == [e, d];
    assert CustomTag(Sequence("", [d, e])) == "";
  }

  /** `new.never+delete`: stored in a missing list, and removed the second time. */
  lemma MissingListLoses(h: Handler)
    ensures var patch := Sequence("", [NEVER_OR_DELETE]);
            && PatchListNode(Undefined, patch, "", h) == Ok(patch)
            && PatchListNode(patch, patch, "", h) == Ok(Sequence("", []))
  {
    hide ModesOf; hide Find; hide Without;
    Meanings();
    var e := NEVER_OR_DELETE;
    FindInTwo(e, OTHER);
    AllOfTwo([e], e, e, h);
    assert CustomTag(Sequence("", [e])) == "";
  }
}

/** What combinations of mode words do to a list: which are accepted, which of them add an element, and which words
    have no effect next to others. */
module PatchWords {
  import opened Wrappers
  import opened Sequences
  import opened Yaml
  import opened KeyedList
  import opened MergeList
  import opened SplitTrim
  import opened PatchMode
  import opened PatchList

  const NEW_MODES := {NewFront, NewBack, NewNever}
  const NEW_WORDS := {"new", "new.front", "new.back", "new.never"}
  const ADDING_MODES := {NewFront, NewBack}
  const ADDING_WORDS := {"new", "new.front", "new.back"}

  // ---------- elements that do not exist ----------

  /** On an existing list, an item for an element that does not exist is accepted exactly if it has one of the new
      modes; it becomes an element exactly if that is not `new.never`. */
  lemma AbsentNeedsNew(items: seq<Node>, e: Node, id: string, h: Handler)
    requires KeyOf(e, id).Some? && Find(items, id, KeyOf(e, id).value) == Ok(|items|)
    ensures PatchOne(items, e, id, h).Ok? <==> ModesOf(e).Ok? && ModesOf(e).value * NEW_MODES != {}
    ensures PatchOne(items, e, id, h).Ok? ==>
              (e in PatchOne(items, e, id, h).value <==> ModesOf(e).value * ADDING_MODES != {})
    ensures PatchOne(items, e, id, h).Err? && ModesOf(e).Ok? ==>
              PatchOne(items, e, id, h) == Err(Panic("patch non-existed node"))
  {
    hide ModesOf;
    NotAnElement(items, e, id);
    hide Find;
    if ModesOf(e).Ok? {
      var modes := ModesOf(e).value;
      assert forall m | m in NEW_MODES && m in modes :: m in modes * NEW_MODES;
      assert forall m | m in ADDING_MODES && m in modes :: m in modes * ADDING_MODES;
    }
  }

  lemma NotAnElement(items: seq<Node>, e: Node, id: string)
    requires KeyOf(e, id).Some? && Find(items, id, KeyOf(e, id).value) == Ok(|items|)
    ensures e !in items
  {
    var key := KeyOf(e, id).value;
    assert forall i | 0 <= i < |items| :: KeyOf(items[i], id).Some? && KeyOf(items[i], id).value != key;
  }

  /** The same in nodes: a list that does not exist either becomes the patch, whatever the tags of its items say. */
  lemma AbsentInNode(res: Node, e: Node, id: string, h: Handler)
    requires IsUndefined(res) || res.Sequence?
    requires KeyOf(e, id).Some? && (res.Sequence? ==> Find(res.items, id, KeyOf(e, id).value) == Ok(|res.items|))
    ensures var r := PatchListNode(res, Sequence("", [e]), id, h);
            && (r.Ok? <==> IsUndefined(res) || (ModesOf(e).Ok? && ModesOf(e).value * NEW_MODES != {}))
            && (r.Ok? ==> r.value.Sequence?)
            && (r.Ok? ==> (e in r.value.items <==> IsUndefined(res) || ModesOf(e).value * ADDING_MODES != {}))
  {
    hide ModesOf; hide PatchOne; hide Find;
    assert CustomTag(Sequence("", [e])) == "";
    if res.Sequence? {
      AbsentNeedsNew(res.items, e, id, h);
      AllOfOne(res.items, e, id, h);
    }
  }

  lemma AllOfOne(items: seq<Node>, e: Node, id: string, h: Handler)
    ensures PatchAll(items, [e], id, h) == PatchOne(items, e, id, h)
  {
    hide PatchOne;
    assert [e][1..] == [];
  }

  lemma NewWordMode(w: string)
    ensures w in NEW_WORDS <==> ModeOfWord(w).Some? && ModeOfWord(w).value in NEW_MODES
    ensures w in ADDING_WORDS <==> ModeOfWord(w).Some? && ModeOfWord(w).value in ADDING_MODES
  {
  }

  /** Words that stand for certain modes are among the words exactly if these modes are asked for. */
  lemma WordsAsModes(words: seq<string>, chosen: set<string>, modes: set<Mode>)
    requires ModesOfWords(words).Ok? && Override !in modes && Explicit !in modes
    requires forall w | w in words :: w in chosen <==> ModeOfWord(w).Some? && ModeOfWord(w).value in modes
    ensures ModesOfWords(words).value * modes != {} <==> exists w :: w in words && w in chosen
  {
    hide ModesOfWords; hide ModeOfWord; hide Supported; hide Groups; hide Distinct; hide Conflict;
    WordsMeaning(words);
    var asked := ModeSet(words);
    assert Completed(asked) * modes == asked * modes;
    if m :| m in asked * modes {
      var w :| w in words && ModeOfWord(w) == Some(m);
      assert w in chosen;
    }
    if w :| w in words && w in chosen {
      assert ModeOfWord(w).value in asked * modes;
    }
  }

  /** The same in the words of the tag: unless the list does not exist either, one of them must be `new`, `new.front`,
      `new.back` or `new.never`, and the element is added exactly if it is one of the first three. */
  lemma AbsentNeedsNewWord(res: Node, e: Node, id: string, h: Handler, words: seq<string>)
    requires IsUndefined(res) || res.Sequence?
    requires KeyOf(e, id).Some? && (res.Sequence? ==> Find(res.items, id, KeyOf(e, id).value) == Ok(|res.items|))
    requires !e.Undefined? && e.tag == TAG_PREFIX + Join(words, '+') && ModesOf(e).Ok?
    requires words != [] && forall w | w in words :: Clean(w, '+')
    ensures var r := PatchListNode(res, Sequence("", [e]), id, h);
            && (r.Ok? <==> IsUndefined(res) || exists w :: w in words && w in NEW_WORDS)
            && (r.Ok? ==> r.value.Sequence?)
            && (r.Ok? ==> (e in r.value.items <==> IsUndefined(res) || exists w :: w in words && w in ADDING_WORDS))
  {
    hide ModesOf; hide PatchListNode; hide Find; hide ModesOfWords; hide Clean; hide Join; hide ModeOfWord;
    TagMeansItsWords(e, words, words);
    AbsentInNode(res, e, id, h);
    forall w ensures w in NEW_WORDS <==> ModeOfWord(w).Some? && ModeOfWord(w).value in NEW_MODES {
      NewWordMode(w);
    }
    forall w ensures w in ADDING_WORDS <==> ModeOfWord(w).Some? && ModeOfWord(w).value in ADDING_MODES {
      NewWordMode(w);
    }
    WordsAsModes(words, NEW_WORDS, NEW_MODES);
    WordsAsModes(words, ADDING_WORDS, ADDING_MODES);
  }

  lemma MergeWord()
    ensures ModeOfWord("merge") == Some(MergeMode) && Clean("merge", '+')
  {
  }

  /** `merge` alone: an element that does not exist is not added to an existing list, the program panics; if the list
      does not exist either, it is added. */
  lemma MergeAloneFails(h: Handler)
    ensures var e := Scalar(TAG_PREFIX + "merge", "x");
            && ModesOf(e) == Ok({MergeMode, Explicit})
            && PatchListNode(Sequence("", []), Sequence("", [e]), "", h) == Err(Panic("patch non-existed node"))
            && PatchListNode(Undefined, Sequence("", [e]), "", h) == Ok(Sequence("", [e]))
  {
    hide ModesOf; hide PatchOne; hide Clean; hide ModeOfWord;
    var e := Scalar(TAG_PREFIX + "merge", "x");
    MergeWord();
    OneWord(e, "merge", MergeMode);
    assert CustomTag(Sequence("", [e])) == "";
    AllOfOne([], e, "", h);
    AbsentNeedsNew([], e, "", h);
    assert {MergeMode, Explicit} * NEW_MODES == {};
  }

  // ---------- which words go together ----------

  /** Supported words of different groups are accepted exactly if no two of delete, skip and plain override are
      among them; `override.front` and `override.back` go with either. */
  lemma AcceptedCombinations(words: seq<string>)
    requires Supported(words) && Distinct(Groups(words))
    ensures ModesOfWords(words).Ok? <==>
              var asked := ModeSet(words);
              !({Delete, Skip} <= asked) && !({Delete, Override} <= asked) && !({Skip, Override} <= asked)
  {
    WordsMeaning(words);
    var asked := ModeSet(words);
    hide ModesOfWords; hide ModeSet; hide Supported; hide Groups; hide Distinct;
    ConflictMeaning(asked);
  }

  lemma ConflictMeaning(asked: set<Mode>)
    ensures Conflict(asked) <==> {Delete, Skip} <= asked || {Delete, Override} <= asked || {Skip, Override} <= asked
  {
    var c := asked * {Delete, Override, Skip};
    if {Delete, Skip} <= asked { TwoOf(c, Delete, Skip); }
    if {Delete, Override} <= asked { TwoOf(c, Delete, Override); }
    if {Skip, Override} <= asked { TwoOf(c, Skip, Override); }
    if !({Delete, Skip} <= asked || {Delete, Override} <= asked || {Skip, Override} <= asked) {
      AtMostOne(asked, {Delete, Override, Skip});
    }
  }

  lemma TwoOf(c: set<Mode>, x: Mode, y: Mode)
    requires x in c && y in c && x != y
    ensures |c| > 1
  {
    assert |c - {x}| == |c| - 1 && y in c - {x};
  }

  /** An element that exists is deleted exactly if delete is asked for and no override and no skip is: next to
      `override.front` and `override.back` the delete is accepted and has no effect. */
  lemma DeleteTakesEffect(items: seq<Node>, i: nat, e: Node, modes: set<Mode>, h: Handler)
    requires i < |items|
    ensures PatchPresent(items, i, e, modes, h) == Ok(Without(items, i)) <==>
              Delete in modes && !AsksOverride(modes) && Skip !in modes
  {
    hide Overridden; hide CompareAndReplace;
    assert |Without(items, i)| == |items| - 1;
    assert PatchPresent(items, i, e, modes, h).Ok? && AsksOverride(modes) ==>
        |PatchPresent(items, i, e, modes, h).value| == |items|;
  }

  /** `delete+override.front` is such a combination. */
  lemma DeleteIsIgnored(items: seq<Node>, i: nat, e: Node, h: Handler)
    requires i < |items| && !e.Undefined? && e.tag == TAG_PREFIX + "delete" + "+override.front"
    ensures ModesOf(e).Ok? && PatchPresent(items, i, e, ModesOf(e).value, h) == Ok([e] + Without(items, i))
  {
    hide ModesOf; hide Clean; hide ModeOfWord;
    DeleteAndMove();
    Assoc(TAG_PREFIX, "delete", "+override.front");
    assert "+" + "override.front" == "+override.front";
    TwoWords(e, "delete", "override.front", Delete, OverrideFront);
  }

  lemma DeleteAndMove()
    ensures ModeOfWord("delete") == Some(Delete) && ModeOfWord("override.front") == Some(OverrideFront)
    ensures Clean("delete", '+') && Clean("override.front", '+') && !Conflict({Delete, OverrideFront})
  {
    AtMostOne({Delete, OverrideFront}, {Delete, Override, Skip});
  }
}

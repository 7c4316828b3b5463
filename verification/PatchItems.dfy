/** What one item of a patch does to a list, in the words of its tag, and that each item of a patch does so whatever
    the others say. */
module PatchItems {
  import opened Wrappers
  import opened Sequences
  import opened Yaml
  import opened MergeMap
  import opened KeyedList
  import opened MergeList
  import opened SplitTrim
  import opened PatchMode
  import opened PatchList
  import opened PatchKeys
  import opened PatchSteady
  import opened PatchWords
  import opened ListUnion

  // ---------- untagged items ----------

  lemma FoundAt(items: seq<Node>, id: string, j: nat)
    requires j < |items| && AllKeyed(items, id) && Distinct(Keys(items, id))
    ensures Find(items, id, Keys(items, id)[j]) == Ok(j)
  {
    var ks := Keys(items, id);
    forall i | 0 <= i < j ensures KeyOf(items[i], id).Some? && KeyOf(items[i], id).value != ks[j] {
      assert ks[i] != ks[j];
    }
    FindUnique(items, id, ks[j], j);
  }

  /** An item without a tag is merged into its element by the handler, in its place, and fails as the handler does. */
  lemma UntaggedItem(items: seq<Node>, j: nat, e: Node, id: string, h: Handler)
    requires j < |items| && AllKeyed(items, id) && Distinct(Keys(items, id)) && KeyOf(e, id) == Some(Keys(items, id)[j])
    requires CustomTag(e) == ""
    ensures PatchAll(items, [e], id, h) ==
            match h(items[j], e)
            case Err(error) => Err(error)
            case Ok(v) => Ok(items[j := v])
  {
    hide Find; hide CustomTag; hide Distinct;
    FoundAt(items, id, j);
    AllOfOne(items, e, id, h);
  }

  // ---------- tagged items ----------

  /** The tag of an item, as written in a patch. */
  predicate Tagged(e: Node, words: seq<string>) {
    && !e.Undefined? && words != [] && e.tag == TAG_PREFIX + Join(words, '+')
    && forall w | w in words :: Clean(w, '+')
  }

  /** The words of a patch and what they say. */
  predicate Says(w: string, m: Mode) {
    match m
    case Override => w == "override"
    case OverrideFront => w == "override.front"
    case OverrideBack => w == "override.back"
    case Skip => w == "skip"
    case NewFront => w == "new" || w == "new.front"
    case NewBack => w == "new.back"
    case NewNever => w == "new.never"
    case Delete => w == "delete"
    case MergeMode => "merge" <= w
    case Explicit => false
  }

  lemma WordAndMode(w: string, m: Mode)
    ensures ModeOfWord(w) == Some(m) <==> Says(w, m)
  {
    assert "merge" <= w ==> w[0] == 'm';
  }

  lemma Asked(words: seq<string>, m: Mode)
    ensures m in ModeSet(words) <==> exists w :: w in words && Says(w, m)
  {
    hide ModeOfWord; hide Says;
    if m in ModeSet(words) {
      var w :| w in words && ModeOfWord(w) == Some(m);
      WordAndMode(w, m);
    }
    if w :| w in words && Says(w, m) {
      WordAndMode(w, m);
      assert ModeOfWord(w).value in ModeSet(words);
    }
  }

  lemma TwoOfAGroup(words: seq<string>)
    requires Supported(words) && |words| > 1 && words[0] == words[1]
    ensures !Distinct(Groups(words))
  {
    assert Groups(words)[0] == Groups(words)[1];
  }

  lemma OnlyNewNever(words: seq<string>)
    requires Supported(words) && Distinct(Groups(words))
    ensures ModeSet(words) == {NewNever} <==> words == ["new.never"]
  {
    hide ModeOfWord; hide Distinct;
    WordAndMode("new.never", NewNever);
    if ModeSet(words) == {NewNever} {
      forall w | w in words ensures w == "new.never" {
        assert ModeOfWord(w).value in ModeSet(words);
        WordAndMode(w, NewNever);
      }
      ElementIn(words, 0);
      if |words| > 1 {
        ElementIn(words, 1);
        TwoOfAGroup(words);
      }
    } else if words == ["new.never"] {
      assert words[0] in words;
      assert NewNever in ModeSet(words);
      assert forall m | m in ModeSet(words) :: m == NewNever;
    }
  }

  lemma AskedWord(words: seq<string>, m: Mode, w: string)
    requires forall v :: Says(v, m) <==> v == w
    ensures m in ModeSet(words) <==> w in words
  {
    hide Says; hide ModeSet;
    Asked(words, m);
  }

  lemma AskedWords(words: seq<string>)
    ensures Override in ModeSet(words) <==> "override" in words
    ensures OverrideFront in ModeSet(words) <==> "override.front" in words
    ensures OverrideBack in ModeSet(words) <==> "override.back" in words
    ensures Skip in ModeSet(words) <==> "skip" in words
    ensures Delete in ModeSet(words) <==> "delete" in words
    ensures NewBack in ModeSet(words) <==> "new.back" in words
    ensures NewNever in ModeSet(words) <==> "new.never" in words
  {
    hide ModeSet;
    AskedWord(words, Override, "override");
    AskedWord(words, OverrideFront, "override.front");
    AskedWord(words, OverrideBack, "override.back");
    AskedWord(words, Skip, "skip");
    AskedWord(words, Delete, "delete");
    AskedWord(words, NewBack, "new.back");
    AskedWord(words, NewNever, "new.never");
  }

  lemma AskedOtherwise(words: seq<string>)
    ensures MergeMode in ModeSet(words) <==> exists w :: w in words && "merge" <= w
    ensures NewFront in ModeSet(words) <==> "new" in words || "new.front" in words
  {
    hide ModeSet;
    Asked(words, MergeMode);
    assert forall w :: Says(w, MergeMode) <==> "merge" <= w;
    Asked(words, NewFront);
    assert Says("new", NewFront) && Says("new.front", NewFront);
  }

  /** Which modes an accepted tag turns on, word by word. */
  lemma ModesOfTag(e: Node, words: seq<string>)
    requires Tagged(e, words) && ModesOf(e).Ok?
    ensures var modes := ModesOf(e).value;
            && Explicit in modes
            && (Override in modes <==> "override" in words || words == ["new.never"])
            && (OverrideFront in modes <==> "override.front" in words)
            && (OverrideBack in modes <==> "override.back" in words)
            && (Skip in modes <==> "skip" in words)
            && (Delete in modes <==> "delete" in words)
            && (MergeMode in modes <==> exists w :: w in words && "merge" <= w)
            && (NewFront in modes <==> "new" in words || "new.front" in words)
            && (NewBack in modes <==> "new.back" in words)
            && (NewNever in modes <==> "new.never" in words)
  {
    hide ModesOf; hide ModesOfWords; hide ModeOfWord; hide Clean; hide Join; hide Supported; hide Groups;
    hide Distinct; hide ModeSet;
    TagMeansItsWords(e, words, words);
    WordsMeaning(words);
    OnlyNewNever(words);
    AskedWords(words);
    AskedOtherwise(words);
  }

  const OVERRIDE_WORDS := {"override", "override.front", "override.back"}

  predicate Known(w: string) {
    w in NEW_WORDS || w in OVERRIDE_WORDS || w == "delete" || w == "skip" || "merge" <= w
  }

  /** Two words of which a tag may contain one. */
  predicate Alike(v: string, w: string) {
    v == w || (v in NEW_WORDS && w in NEW_WORDS) || (v in OVERRIDE_WORDS && w in OVERRIDE_WORDS)
    || ("merge" <= v && "merge" <= w)
  }

  lemma KnownWord(w: string)
    ensures Known(w) <==> ModeOfWord(w).Some?
  {
  }

  lemma GroupOfWord(w: string)
    requires ModeOfWord(w).Some?
    ensures var g := GroupOf(ModeOfWord(w).value);
            && (g == News <==> w in NEW_WORDS) && (g == Overrides <==> w in OVERRIDE_WORDS)
            && (g == Merges <==> "merge" <= w) && (g == Deletes <==> w == "delete") && (g == Skips <==> w == "skip")
  {
    assert "merge" <= w ==> w[0] == 'm';
  }

  lemma AlikeWords(v: string, w: string)
    requires ModeOfWord(v).Some? && ModeOfWord(w).Some?
    ensures Alike(v, w) <==> GroupOf(ModeOfWord(v).value) == GroupOf(ModeOfWord(w).value)
  {
    hide ModeOfWord; hide GroupOf;
    GroupOfWord(v);
    GroupOfWord(w);
  }

  lemma NoneAlike(words: seq<string>)
    requires Supported(words)
    ensures Distinct(Groups(words)) <==> forall i, j | 0 <= i < j < |words| :: !Alike(words[i], words[j])
  {
    hide ModeOfWord; hide GroupOf; hide Alike;
    forall i, j | 0 <= i < j < |words|
      ensures Alike(words[i], words[j]) <==> Groups(words)[i] == Groups(words)[j]
    {
      AlikeWords(words[i], words[j]);
    }
  }

  /** Exactly which tags are accepted: known words, no two of which are alike, and no two of `delete`, `skip` and
      `override`. */
  lemma TagAccepted(e: Node, words: seq<string>)
    requires Tagged(e, words)
    ensures ModesOf(e).Ok? <==>
              && (forall w | w in words :: Known(w))
              && (forall i, j | 0 <= i < j < |words| :: !Alike(words[i], words[j]))
              && !("delete" in words && "skip" in words)
              && !("delete" in words && "override" in words)
              && !("skip" in words && "override" in words)
  {
    hide ModesOf; hide ModesOfWords; hide ModeOfWord; hide Clean; hide Join; hide Groups; hide Distinct; hide ModeSet;
    hide Known; hide Alike; hide Conflict; hide Supported;
    TagMeansItsWords(e, words, words);
    WordsMeaning(words);
    forall w ensures Known(w) <==> ModeOfWord(w).Some? {
      KnownWord(w);
    }
    SupportedBySet(words);
    if Supported(words) {
      NoneAlike(words);
    }
    ConflictMeaning(ModeSet(words));
    AskedWords(words);
  }

  /** What a tagged item does to an element with its key. */
  lemma TaggedItem(items: seq<Node>, j: nat, e: Node, words: seq<string>, id: string, h: Handler)
    requires j < |items| && AllKeyed(items, id) && Distinct(Keys(items, id)) && KeyOf(e, id) == Some(Keys(items, id)[j])
    requires Tagged(e, words) && ModesOf(e).Ok?
    ensures var merges := exists w :: w in words && "merge" <= w;
            var was, rest := items[j], items[..j] + items[j + 1..];
            var r := PatchAll(items, [e], id, h);
            if "override" in words || words == ["new.never"] then r == Ok(items[j := e])
            else if "override.front" in words then r == Ok([e] + rest)
            else if "override.back" in words then r == Ok(rest + [e])
            else if "skip" in words then r == Ok(items)
            else if "delete" in words then r == Ok(rest)
            else if merges && was.Map? && e.Map? then r == Ok(items[j := Merge(was, e)])
            else if merges && !(was.Sequence? && e.Sequence?) then r == Ok(items[j := e])
            else if merges then
              match CompareAndReplace(was, e)
              case Err(error) => r == Err(error)
              case Ok(v) => r == Ok(items[j := v])
            else r == Err(Panic("same config existed"))
  {
    hide Find; hide Distinct; hide ModesOf; hide Tagged;
    FoundAt(items, id, j);
    AllOfOne(items, e, id, h);
    ModesOfTag(e, words);
  }

  /** What a tagged item does if there is no element with its key. */
  lemma TaggedNewItem(items: seq<Node>, e: Node, words: seq<string>, id: string, h: Handler)
    requires AllKeyed(items, id) && KeyOf(e, id).Some? && KeyOf(e, id).value !in Keys(items, id)
    requires Tagged(e, words) && ModesOf(e).Ok?
    ensures PatchAll(items, [e], id, h) ==
            if "new" in words || "new.front" in words then Ok([e] + items)
            else if "new.back" in words then Ok(items + [e])
            else if "new.never" in words then Ok(items)
            else Err(Panic("patch non-existed node"))
  {
    hide Find; hide Distinct; hide ModesOf; hide Tagged;
    FindKeys(items, id, KeyOf(e, id).value);
    AllOfOne(items, e, id, h);
    ModesOfTag(e, words);
  }

  // ---------- patches of many items ----------

  lemma OneItem(e: Node, id: string)
    requires KeyOf(e, id).Some?
    ensures AllKeyed([e], id) && Keys([e], id) == [KeyOf(e, id).value] && Distinct(Keys([e], id))
    ensures NamesOf([e], id) == {KeyOf(e, id).value}
  {
    assert e in [e];
  }

  lemma AloneValue(items: seq<Node>, e: Node, id: string, h: Handler)
    requires KeepsKey(h, id) && AllKeyed(items, id) && Distinct(Keys(items, id)) && KeyOf(e, id).Some?
    ensures var k := KeyOf(e, id).value;
            var step, alone := StepPatch(Lookup(items, id, k), e, id, k, h), PatchAll(items, [e], id, h);
            && (step.Ok? <==> alone.Ok?)
            && (alone.Ok? ==> step == Ok(Lookup(alone.value, id, k)))
  {
    hide KeepsKey; hide Distinct; hide StepPatch; hide FoldPatch; hide Lookup; hide PatchAll;
    var k := KeyOf(e, id).value;
    OneItem(e, id);
    FoldOnce(Lookup(items, id, k), [e], id, 0, h);
    PatchAccepted(items, [e], id, h);
    if PatchAll(items, [e], id, h).Ok? {
      PatchedValue(items, [e], id, h, k);
    }
  }

  lemma ItemInPatch(items: seq<Node>, ext: seq<Node>, id: string, h: Handler, i: nat)
    requires KeepsKey(h, id) && AllKeyed(items, id) && Distinct(Keys(items, id))
    requires AllKeyed(ext, id) && Distinct(Keys(ext, id)) && i < |ext|
    ensures var k := Keys(ext, id)[i];
            PatchAll(items, [ext[i]], id, h).Ok? <==> FoldPatch(Lookup(items, id, k), ext, id, k, h).Ok?
    ensures SameAlone(items, ext, id, h, i)
  {
    hide KeepsKey; hide Distinct; hide StepPatch; hide FoldPatch; hide Lookup; hide PatchAll;
    var k := Keys(ext, id)[i];
    FoldOnce(Lookup(items, id, k), ext, id, i, h);
    AloneValue(items, ext[i], id, h);
    if PatchAll(items, ext, id, h).Ok? {
      PatchedValue(items, ext, id, h, k);
    }
  }

  /** The item does to the element with its key what it would do alone. */
  ghost predicate SameAlone(items: seq<Node>, ext: seq<Node>, id: string, h: Handler, i: nat)
    requires AllKeyed(ext, id) && i < |ext|
  {
    var all, alone, k := PatchAll(items, ext, id, h), PatchAll(items, [ext[i]], id, h), Keys(ext, id)[i];
    all.Ok? ==> alone.Ok? && Lookup(all.value, id, k) == Lookup(alone.value, id, k)
  }

  /** In a patch that names no key twice, every item does to its element what it would do alone, and the patch is
      accepted exactly if all its items would be. */
  lemma EachItemAlone(items: seq<Node>, ext: seq<Node>, id: string, h: Handler)
    requires KeepsKey(h, id) && AllKeyed(items, id) && Distinct(Keys(items, id))
    requires AllKeyed(ext, id) && Distinct(Keys(ext, id))
    ensures PatchAll(items, ext, id, h).Ok? <==> forall i | 0 <= i < |ext| :: PatchAll(items, [ext[i]], id, h).Ok?
    ensures forall i | 0 <= i < |ext| :: SameAlone(items, ext, id, h, i)
  {
    hide KeepsKey; hide Distinct; hide StepPatch; hide FoldPatch; hide Lookup; hide PatchAll; hide SameAlone;
    hide NamesOf;
    PatchAccepted(items, ext, id, h);
    forall i | 0 <= i < |ext| ensures SameAlone(items, ext, id, h, i) {
      ItemInPatch(items, ext, id, h, i);
    }
    if PatchAll(items, ext, id, h).Ok? {
      forall i | 0 <= i < |ext| ensures PatchAll(items, [ext[i]], id, h).Ok? {
        ItemInPatch(items, ext, id, h, i);
        NotNamed(ext, id, Keys(ext, id)[i]);
      }
    } else {
      var k :| k in NamesOf(ext, id) && FoldPatch(Lookup(items, id, k), ext, id, k, h).Err?;
      NotNamed(ext, id, k);
      var i :| 0 <= i < |ext| && Keys(ext, id)[i] == k;
      ItemInPatch(items, ext, id, h, i);
    }
  }

  lemma ValueAt(items: seq<Node>, id: string, j: nat)
    requires j < |items| && AllKeyed(items, id) && Distinct(Keys(items, id))
    ensures Lookup(items, id, Keys(items, id)[j]) == Some(items[j])
  {
    FoundAt(items, id, j);
    LookupFinds(items, id, Keys(items, id)[j]);
  }

  /** Untagged items of a patch of maps, position by position: a value of the item wins, and what the item neither
      defines nor cuts off stays. */
  lemma UntaggedMerges(items: seq<Node>, ext: seq<Node>, id: string, i: nat, j: nat, p: Path)
    requires AllKeyed(items, id) && Distinct(Keys(items, id)) && AllKeyed(ext, id) && Distinct(Keys(ext, id))
    requires i < |ext| && j < |items| && Keys(ext, id)[i] == Keys(items, id)[j] && CustomTag(ext[i]) == ""
    requires PatchAll(items, ext, id, MERGE_MAP).Ok?
    ensures var o := Lookup(PatchAll(items, ext, id, MERGE_MAP).value, id, Keys(ext, id)[i]);
            && o.Some?
            && (!IsUndefined(At(ext[i], p)) && !At(ext[i], p).Map? ==> At(o.value, p) == At(ext[i], p))
            && (IsUndefined(At(ext[i], p)) && !CutOff(ext[i], p) ==> SameValue(At(o.value, p), At(items[j], p)))
  {
    hide KeepsKey; hide Distinct; hide Lookup; hide PatchAll; hide Merge; hide At; hide CutOff; hide CustomTag;
    var v := Merge(items[j], ext[i]);
    MergeMapKeepsKey(id);
    ItemInPatch(items, ext, id, MERGE_MAP, i);
    UntaggedItem(items, j, ext[i], id, MERGE_MAP);
    MergedKey(items[j], ext[i], id);
    KeysReplaced(items, j, v, id);
    ValueAt(items[j := v], id, j);
    if !IsUndefined(At(ext[i], p)) && !At(ext[i], p).Map? {
      ExtValueWins(items[j], ext[i], p);
    } else if IsUndefined(At(ext[i], p)) && !CutOff(ext[i], p) {
      UntouchedValueStays(items[j], ext[i], p);
    }
  }

  lemma MergedKey(v: Node, e: Node, id: string)
    requires KeyOf(e, id).Some? && KeyOf(v, id) == KeyOf(e, id)
    ensures KeyOf(Merge(v, e), id) == KeyOf(v, id)
  {
    MergeMapKeepsKey(id);
    assert MERGE_MAP(v, e) == Ok(Merge(v, e));
  }
}

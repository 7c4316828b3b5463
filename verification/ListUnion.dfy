/** `CompareAndReplaceNode` on two lists of texts: what `ext` adds, and what happens to repetitions. */
module ListUnion {
  import opened Wrappers
  import opened Sequences
  import opened Yaml
  import opened KeyedList
  import opened MergeList
  import opened PatchList
  import opened PatchKeys

  /** The texts that are not in `known`, with all their repetitions. */
  function Missing(known: seq<string>, texts: seq<string>): seq<string>
    decreases |texts|
  {
    if texts == [] then []
    else (if texts[0] in known then [] else [texts[0]]) + Missing(known, texts[1..])
  }

  lemma {:induction false} NewTextsKeys(known: seq<Node>, ext: seq<Node>)
    requires AllKeyed(known, "") && AllKeyed(ext, "")
    ensures NewTexts(known, ext).Ok? && AllKeyed(NewTexts(known, ext).value, "")
    ensures Keys(NewTexts(known, ext).value, "") == Missing(Keys(known, ""), Keys(ext, ""))
    decreases |ext|
  {
    if ext != [] {
      KeysTail(ext, "");
      assert Keys(ext, "")[1..] == Keys(ext[1..], "");
      NewTextsKeys(known, ext[1..]);
      FindKeys(known, "", KeyOf(ext[0], "").value);
      var rest := NewTexts(known, ext[1..]).value;
      assert known == [] ==> Keys(known, "") == [];
      KeysConcat([ext[0]], rest, "");
      assert [] + rest == rest && Keys([ext[0]], "") == [Keys(ext, "")[0]];
    }
  }

  lemma {:induction false} NewTextsFrom(known: seq<Node>, ext: seq<Node>)
    requires NewTexts(known, ext).Ok?
    ensures forall x | x in NewTexts(known, ext).value :: x in ext
    decreases |ext|
  {
    if ext != [] {
      NewTextsFrom(known, ext[1..]);
    }
  }

  /** The list keeps its elements, in order, and gets those of `ext` whose texts it did not have, in order; they are
      compared with the old list only, so a text repeated in `ext` is added as often. */
  lemma UnionKeys(res: Node, ext: Node)
    requires res.Sequence? && ext.Sequence? && AllKeyed(res.items, "") && AllKeyed(ext.items, "")
    ensures CompareAndReplace(res, ext).Ok? && CompareAndReplace(res, ext).value.Sequence?
    ensures var out := CompareAndReplace(res, ext).value.items;
            AllKeyed(out, "") && Keys(out, "") == Keys(res.items, "") +
                Missing(Keys(res.items, ""), Keys(ext.items, ""))
    ensures var out := CompareAndReplace(res, ext).value;
            && out.tag == res.tag && res.items <= out.items
            && forall x | x in out.items :: x in res.items || x in ext.items
  {
    NewTextsKeys(res.items, ext.items);
    NewTextsFrom(res.items, ext.items);
    KeysConcat(res.items, NewTexts(res.items, ext.items).value, "");
  }

  lemma {:induction false} MissingMeaning(known: seq<string>, texts: seq<string>)
    ensures forall x :: x in Missing(known, texts) <==> x in texts && x !in known
    decreases |texts|
  {
    if texts != [] {
      MissingMeaning(known, texts[1..]);
      assert texts == [texts[0]] + texts[1..];
    }
  }

  /** No added text is repeated exactly if `ext` repeats none that is new. */
  lemma {:induction false} MissingOnce(known: seq<string>, texts: seq<string>)
    ensures Distinct(Missing(known, texts)) <==>
              forall i, j | 0 <= i < j < |texts| && texts[i] == texts[j] :: texts[i] in known
    decreases |texts|
  {
    if texts != [] {
      MissingOnce(known, texts[1..]);
      MissingMeaning(known, texts[1..]);
      var x, rest := texts[0], Missing(known, texts[1..]);
      assert forall i | 0 < i < |texts| :: texts[i] == texts[1..][i - 1];
      if x in known {
        assert Missing(known, texts) == rest;
      } else {
        assert Missing(known, texts) == [x] + rest;
        if Distinct([x] + rest) {
          DistinctTail(x, rest);
        } else if Distinct(rest) && x !in rest {
          DistinctConcat([x], rest);
        }
      }
    }
  }

  /** The result repeats no text exactly if the old list does not and `ext` repeats no new one. */
  lemma UnionIsDuplicateFree(res: Node, ext: Node)
    requires res.Sequence? && ext.Sequence? && AllKeyed(res.items, "") && AllKeyed(ext.items, "")
    ensures CompareAndReplace(res, ext).Ok? && CompareAndReplace(res, ext).value.Sequence?
    ensures AllKeyed(CompareAndReplace(res, ext).value.items, "")
    ensures var known, texts := Keys(res.items, ""), Keys(ext.items, "");
            Distinct(Keys(CompareAndReplace(res, ext).value.items, "")) <==>
              && Distinct(known)
              && forall i, j | 0 <= i < j < |texts| && texts[i] == texts[j] :: texts[i] in known
  {
    UnionKeys(res, ext);
    var known, texts := Keys(res.items, ""), Keys(ext.items, "");
    MissingOnce(known, texts);
    MissingMeaning(known, texts);
    DistinctParts(known, Missing(known, texts));
  }

  lemma DistinctParts(a: seq<string>, b: seq<string>)
    requires forall x | x in b :: x !in a
    ensures Distinct(a + b) <==> Distinct(a) && Distinct(b)
  {
    if Distinct(a + b) {
      assert forall i | 0 <= i < |a| :: (a + b)[i] == a[i];
      assert forall i | 0 <= i < |b| :: (a + b)[|a| + i] == b[i];
    } else if Distinct(a) && Distinct(b) {
      DistinctConcat(a, b);
    }
  }

  /** Adding the same list again changes nothing. */
  lemma UnionTwice(res: Node, ext: Node)
    requires res.Sequence? && ext.Sequence? && AllKeyed(res.items, "") && AllKeyed(ext.items, "")
    ensures CompareAndReplace(res, ext).Ok?
    ensures CompareAndReplace(CompareAndReplace(res, ext).value, ext) == CompareAndReplace(res, ext)
  {
    UnionKeys(res, ext);
    var out := CompareAndReplace(res, ext).value;
    NewTextsKeys(out.items, ext.items);
    MissingMeaning(Keys(res.items, ""), Keys(ext.items, ""));
    MissingMeaning(Keys(out.items, ""), Keys(ext.items, ""));
    NoElements(Keys(NewTexts(out.items, ext.items).value, ""));
    assert out.items + [] == out.items;
  }
}

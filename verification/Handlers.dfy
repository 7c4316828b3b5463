/** The handlers with which the sections of a configuration merge or patch the elements of their lists: maps
    field by field, some of the fields being lists themselves. */
module Handlers {
  import opened Wrappers
  import opened Sequences
  import opened Yaml
  import opened MergeMap
  import opened KeyedList
  import opened MergeList
  import opened PatchList
  import opened PatchKeys
  import opened PatchMode
  import opened PatchTwice
  import opened KeyMoves
  import opened PatchSteady
  import opened PatchNodes

  /** Merges or patches a list with the given key field. */
  type ListHandler = (Node, Node, string) -> Result<Node, Failure>

  const MERGE_LIST: ListHandler := (res, ext, id) => MergeListNode(res, ext, id, MERGE_MAP)

  const PATCH_LIST: ListHandler := (res, ext, id) => PatchListNode(res, ext, id, MERGE_MAP)

  /** What becomes of one field. */
  function SubField(res: Node, ext: Node, k: string, lists: map<string, string>, h: ListHandler): Result<Node, Failure>
    requires res.Map? && ext.Map? && k in ext.fields
  {
    if k in lists then h(Field(res.fields, k), ext.fields[k], lists[k])
    else Ok(Merge(Field(res.fields, k), ext.fields[k]))
  }

  ghost predicate SomeFieldFails(res: Node, ext: Node, lists: map<string, string>, h: ListHandler)
    requires res.Map? && ext.Map?
  {
    exists k | k in ext.fields :: SubField(res, ext, k, lists, h).Err?
  }

  /** What `MergeMapNodeWithSubList` and `PatchMapNodeWithSubList` compute; if several sub-lists throw, one of their
      errors. */
  ghost function SubLists(res: Node, ext: Node, lists: map<string, string>, h: ListHandler): Result<Node, Failure> {
    if IsUndefined(ext) then Ok(res)
    else if !ext.Map? || !res.Map? then Ok(ext)
    else if SomeFieldFails(res, ext, lists, h) then
      var k :| k in ext.fields && SubField(res, ext, k, lists, h).Err?;
      Err(SubField(res, ext, k, lists, h).error)
    else Ok(res.(fields := map k | k in res.fields.Keys + ext.fields.Keys ::
                             if k in ext.fields then SubField(res, ext, k, lists, h).value else res.fields[k]))
  }

  /** The loop over the fields of `ext`, in whatever order the map has them. */
  method MapNodeWithSubList(res: Node, ext: Node, lists: map<string, string>, h: ListHandler)
    returns (r: Result<Node, Failure>)
    ensures r.Ok? <==> SubLists(res, ext, lists, h).Ok?
    ensures r.Ok? ==> r == SubLists(res, ext, lists, h)
    ensures r.Err? ==>
              res.Map? && ext.Map? && exists k | k in ext.fields :: SubField(res, ext, k, lists, h) == Err(r.error)
  {
    if IsUndefined(ext) {
      return Ok(res);
    }
    if !ext.Map? || !res.Map? {
      return Ok(ext);
    }
    var fields, todo := res.fields, ext.fields.Keys;
    while todo != {}
      invariant todo <= ext.fields.Keys && DoneBut(res, ext, lists, h, fields, todo)
      decreases |todo|
    {
      var k :| k in todo;
      FieldIsOld(res, ext, lists, h, fields, todo, k);
      var merged := if k in lists then h(Field(fields, k), ext.fields[k], lists[k])
                    else Ok(Merge(Field(fields, k), ext.fields[k]));
      assert merged == SubField(res, ext, k, lists, h);
      if merged.Err? {
        return Err(merged.error);
      }
      OneFieldMore(res, ext, lists, h, fields, todo, k, merged.value);
      fields := fields[k := merged.value];
      todo := todo - {k};
    }
    AllDone(res, ext, lists, h, fields);
    return Ok(res.(fields := fields));
  }

  /** The loop with some fields still to do. */
  ghost predicate DoneBut(res: Node, ext: Node, lists: map<string, string>, h: ListHandler,
                          fields: map<string, Node>, todo: set<string>)
    requires res.Map? && ext.Map?
  {
    && fields.Keys == res.fields.Keys + (ext.fields.Keys - todo)
    && forall k | k in fields ::
         if k in ext.fields && k !in todo then SubField(res, ext, k, lists, h) == Ok(fields[k])
         else k in res.fields && fields[k] == res.fields[k]
  }

  lemma FieldIsOld(res: Node, ext: Node, lists: map<string, string>, h: ListHandler,
                   fields: map<string, Node>, todo: set<string>, k: string)
    requires res.Map? && ext.Map? && DoneBut(res, ext, lists, h, fields, todo) && k in todo
    ensures Field(fields, k) == Field(res.fields, k)
  {
  }

  lemma OneFieldMore(res: Node, ext: Node, lists: map<string, string>, h: ListHandler,
                     fields: map<string, Node>, todo: set<string>, k: string, v: Node)
    requires res.Map? && ext.Map? && DoneBut(res, ext, lists, h, fields, todo)
    requires k in todo && todo <= ext.fields.Keys && SubField(res, ext, k, lists, h) == Ok(v)
    ensures DoneBut(res, ext, lists, h, fields[k := v], todo - {k})
  {
    hide SubField;
    assert fields[k := v].Keys == fields.Keys + {k};
  }

  lemma AllDone(res: Node, ext: Node, lists: map<string, string>, h: ListHandler, fields: map<string, Node>)
    requires res.Map? && ext.Map? && DoneBut(res, ext, lists, h, fields, {})
    ensures SubLists(res, ext, lists, h) == Ok(res.(fields := fields))
  {
    hide SubField;
    assert forall k | k in ext.fields :: k in fields && SubField(res, ext, k, lists, h) == Ok(fields[k]);
    assert fields == map k | k in res.fields.Keys + ext.fields.Keys ::
                       if k in ext.fields then SubField(res, ext, k, lists, h).value else res.fields[k];
  }

  /** The handler with which `channel` and `rpc` treat their backends. */
  ghost function SubListHandler(lists: map<string, string>, h: ListHandler): Handler {
    (res, ext) => SubLists(res, ext, lists, h)
  }

  /** Where the key of an element is not one of its lists, it keeps the key, so the theorems on lists hold for it. */
  lemma SubListsKeepKey(lists: map<string, string>, h: ListHandler, id: string)
    requires id !in lists
    ensures KeepsKey(SubListHandler(lists, h), id)
  {
    forall r, e | KeyOf(e, id).Some? && KeyOf(r, id) == KeyOf(e, id) && SubListHandler(lists, h)(r, e).Ok?
      ensures KeyOf(SubListHandler(lists, h)(r, e).value, id) == KeyOf(e, id)
    {
      if id != "" {
        assert SubField(r, e, id, lists, h) == Ok(Merge(r.fields[id], e.fields[id]));
      }
    }
  }

  /** Whichever way two nodes are combined, an undefined second one changes nothing, the second takes the place of an
      undefined first one, and so it does where it is neither a map nor a list. */
  lemma Neutral(res: Node, ext: Node, id: string, lists: map<string, string>, h: Handler, lh: ListHandler)
    requires IsUndefined(ext) || IsUndefined(res) || !(ext.Map? || ext.Sequence?)
    ensures var out := if IsUndefined(ext) then res else ext;
            && Merge(res, ext) == out
            && SubLists(res, ext, lists, lh) == Ok(out)
            && MergeListNode(res, ext, id, h) == Ok(out)
            && PatchListNode(res, ext, id, h) == Ok(out)
  {
  }

  /** A node with the list that a list algorithm has left, or the error with which it has failed. */
  function WithItems(res: Node, r: Result<seq<Node>, Failure>): Result<Node, Failure>
    requires res.Sequence?
  {
    match r
    case Err(error) => Err(error)
    case Ok(items) => Ok(res.(items := items))
  }

  /** Lists are combined element by element, in the node that is there; a patch may say that it replaces the whole list,
      and then what is there need not be a list. */
  lemma ListsInNodes(res: Node, ext: Node, id: string, h: Handler)
    requires !IsUndefined(res) && ext.Sequence?
    ensures MergeListNode(res, ext, id, h) ==
            if res.Sequence? then WithItems(res, MergeLists(res.items, ext.items, id, h)) else Err(NotASequence)
    ensures !(TAG_PREFIX <= ext.tag) || ext.tag == TAG_PREFIX ==>
              PatchListNode(res, ext, id, h) ==
              if res.Sequence? then WithItems(res, PatchAll(res.items, ext.items, id, h)) else Err(NotASequence)
    ensures ext.tag == TAG_PREFIX + "override" ==> PatchListNode(res, ext, id, h) == Ok(ext)
    ensures TAG_PREFIX <= ext.tag && ext.tag != TAG_PREFIX && ext.tag != TAG_PREFIX + "override" ==>
              PatchListNode(res, ext, id, h).Err? && PatchListNode(res, ext, id, h).error.Panic?
  {
    hide MergeLists; hide PatchAll;
    if TAG_PREFIX <= ext.tag {
      assert ext.tag == TAG_PREFIX + ext.tag[|TAG_PREFIX|..];
    }
  }

  lemma AtField(fields: map<string, Node>, tag: string, p: Path)
    requires p != []
    ensures At(Map(tag, fields), p) == At(Field(fields, p[0]), p[1..])
  {
  }

  /** Maps are combined field by field: a list by its handler, and everything outside the lists as `Merge` does. */
  lemma SubListsAt(res: Node, ext: Node, lists: map<string, string>, h: ListHandler, p: Path)
    requires res.Map? && ext.Map? && SubLists(res, ext, lists, h).Ok? && p != []
    ensures var out := SubLists(res, ext, lists, h).value;
            if p[0] in ext.fields && p[0] in lists then
              h(Field(res.fields, p[0]), ext.fields[p[0]], lists[p[0]]) == Ok(At(out, [p[0]]))
            else At(out, p) == At(Merge(res, ext), p)
  {
    var out := SubLists(res, ext, lists, h).value;
    assert [p[0]][1..] == [] && At(Field(out.fields, p[0]), []) == Field(out.fields, p[0]);
    AtField(out.fields, out.tag, p);
    AtField(out.fields, out.tag, [p[0]]);
    AtField(Merge(res, ext).fields, res.tag, p);
  }

  // ---------- handlers that do nothing new the second time ----------

  /** Merging or patching with this list once more does nothing, on any list or on itself. */
  ghost predicate ListAgain(n: Node, id: string, h: ListHandler) {
    && (forall r :: h(r, n, id).Ok? ==> h(h(r, n, id).value, n, id) == h(r, n, id))
    && h(n, n, id) == Ok(n)
  }

  ghost predicate ListsAgain(e: Node, lists: map<string, string>, h: ListHandler) {
    e.Map? ==> forall k | k in e.fields && k in lists :: ListAgain(e.fields[k], lists[k], h)
  }

  lemma FieldAgain(r: Node, e: Node, k: string, lists: map<string, string>, h: ListHandler)
    requires r.Map? && e.Map? && k in e.fields && ListsAgain(e, lists, h) && SubField(r, e, k, lists, h).Ok?
    ensures var v := SubField(r, e, k, lists, h).value;
            if k in lists then h(v, e.fields[k], lists[k]) == Ok(v) else Merge(v, e.fields[k]) == v
  {
    if k in lists {
      assert ListAgain(e.fields[k], lists[k], h);
    } else {
      MergeIdempotent(Field(r.fields, k), e.fields[k]);
    }
  }

  lemma SubListsTwice(r: Node, e: Node, lists: map<string, string>, h: ListHandler)
    requires ListsAgain(e, lists, h) && SubLists(r, e, lists, h).Ok?
    ensures SubLists(SubLists(r, e, lists, h).value, e, lists, h) == SubLists(r, e, lists, h)
  {
    hide ListsAgain;
    if !IsUndefined(e) && r.Map? && e.Map? {
      var out := SubLists(r, e, lists, h).value;
      forall k | k in e.fields ensures SubField(out, e, k, lists, h) == Ok(out.fields[k]) {
        FieldAgain(r, e, k, lists, h);
      }
      assert SubLists(out, e, lists, h).value.fields == out.fields;
    } else if !IsUndefined(e) {
      SubListsSelf(e, lists, h);
    }
  }

  lemma SubListsSelf(e: Node, lists: map<string, string>, h: ListHandler)
    requires ListsAgain(e, lists, h)
    ensures SubLists(e, e, lists, h) == Ok(e)
  {
    if e.Map? {
      forall k | k in e.fields ensures SubField(e, e, k, lists, h) == Ok(e.fields[k]) {
        if k in lists {
          assert ListAgain(e.fields[k], lists[k], h);
        } else {
          MergeSelf(e.fields[k]);
        }
      }
      assert SubLists(e, e, lists, h).value.fields == e.fields;
    }
  }

  /** An element with such lists is merged or patched idempotently. */
  lemma SubListsIdempotent(e: Node, lists: map<string, string>, h: ListHandler, id: string)
    requires ListsAgain(e, lists, h)
    ensures Idempotent(SubListHandler(lists, h), e, id)
  {
    hide SubLists; hide ListsAgain;
    SubListsSelf(e, lists, h);
    forall r | SubLists(r, e, lists, h).Ok?
      ensures SubLists(SubLists(r, e, lists, h).value, e, lists, h) == SubLists(r, e, lists, h)
    {
      SubListsTwice(r, e, lists, h);
    }
  }

  /** Merging does nothing new the second time with a list of distinct keys. */
  lemma MergeListAgain(n: Node, id: string)
    requires n.Sequence? ==> AllKeyed(n.items, id) && Distinct(Keys(n.items, id))
    ensures ListAgain(n, id, MERGE_LIST)
  {
    hide Idempotent; hide KeepsKey; hide MergeLists;
    MergeMapKeepsKey(id);
    forall x ensures Idempotent(MERGE_MAP, x, id) {
      MergeMapIdempotent(x, id);
    }
    if n.Sequence? {
      MergeSelfList(n.items, id, MERGE_MAP);
    }
    forall r | MergeListNode(r, n, id, MERGE_MAP).Ok?
      ensures MergeListNode(MergeListNode(r, n, id, MERGE_MAP).value, n, id, MERGE_MAP) ==
              MergeListNode(r, n, id, MERGE_MAP)
    {
      MergeNodeTwice(r, n, id, MERGE_MAP);
    }
  }

  /** A list that replaces the whole list, or whose items override in place and have distinct keys. */
  ghost predicate PlainPatch(n: Node, id: string) {
    n.Sequence? ==>
      || CustomTag(n) == "override"
      || (CustomTag(n) == "" && AllKeyed(n.items, id) && Distinct(Keys(n.items, id))
          && forall e | e in n.items :: InPlace(e))
  }

  lemma MapsInPlaceAgain(items: seq<Node>, id: string)
    requires forall e | e in items :: InPlace(e)
    ensures forall e | e in items :: InPlaceAgain(e, id, MERGE_MAP)
  {
    hide InPlace; hide Idempotent; hide ModesOf;
    forall e | e in items ensures InPlaceAgain(e, id, MERGE_MAP) {
      MergeMapIdempotent(e, id);
    }
  }

  lemma OwnItemsInPlace(items: seq<Node>, id: string)
    requires AllKeyed(items, id) && Distinct(Keys(items, id)) && forall e | e in items :: InPlace(e)
    ensures PatchAll(items, items, id, MERGE_MAP) == Ok(items)
  {
    hide InPlace; hide ModesOf; hide Idempotent;
    MapsInPlaceAgain(items, id);
    forall e | e in items ensures Inert(items, e, id, MERGE_MAP) {
      var i :| 0 <= i < |items| && items[i] == e;
      FindsItself(items, id, i);
      LookupFinds(items, id, Keys(items, id)[i]);
      LookupDistinct(items, id, i);
      assert InPlaceAgain(e, id, MERGE_MAP);
      MergeMapIdempotent(e, id);
      SelfIsInert(items, e, id);
    }
    InertAll(items, items, id, MERGE_MAP);
  }

  lemma SelfIsInert(items: seq<Node>, e: Node, id: string)
    requires InPlace(e) && KeyOf(e, id).Some? && Idempotent(MERGE_MAP, e, id)
    requires Find(items, id, KeyOf(e, id).value).Ok? && Find(items, id, KeyOf(e, id).value).value < |items|
    requires items[Find(items, id, KeyOf(e, id).value).value] == e
    ensures Inert(items, e, id, MERGE_MAP)
  {
    hide ModesOf; hide Find;
  }

  /** Patching does nothing new the second time with such a list. */
  lemma PatchListAgain(n: Node, id: string)
    requires PlainPatch(n, id)
    ensures ListAgain(n, id, PATCH_LIST)
  {
    hide PatchAll; hide KeepsKey; hide InPlace; hide CustomTag; hide Distinct; hide InPlaceAgain;
    MergeMapKeepsKey(id);
    if n.Sequence? && CustomTag(n) == "" {
      OwnItemsInPlace(n.items, id);
      MapsInPlaceAgain(n.items, id);
    }
    forall r | PatchListNode(r, n, id, MERGE_MAP).Ok?
      ensures PatchListNode(PatchListNode(r, n, id, MERGE_MAP).value, n, id, MERGE_MAP) ==
              PatchListNode(r, n, id, MERGE_MAP)
    {
      if n.Sequence? && CustomTag(n) == "" && r.Sequence? {
        OverrideTwice(r.items, n.items, id, MERGE_MAP);
      }
    }
  }

  const CHANNEL_LISTS := map["pub_topics_options" := "topic_name", "sub_topics_options" := "topic_name"]
  const RPC_LISTS := map["servers_options" := "func_name", "clients_options" := "func_name"]

  /** Patching the backends of `channel` or `rpc`: distinct types stay distinct, and backends that the patch does not
      name keep their values and their order. */
  lemma PatchedBackends(items: seq<Node>, ext: seq<Node>, lists: map<string, string>)
    requires lists in {CHANNEL_LISTS, RPC_LISTS} && AllKeyed(items, "type") && Distinct(Keys(items, "type"))
    requires PatchAll(items, ext, "type", SubListHandler(lists, PATCH_LIST)).Ok?
    ensures var out := PatchAll(items, ext, "type", SubListHandler(lists, PATCH_LIST)).value;
            && AllKeyed(out, "type") && Distinct(Keys(out, "type"))
            && Others(out, "type", NamesOf(ext, "type")) == Others(items, "type", NamesOf(ext, "type"))
  {
    hide KeepsKey; hide PatchAll; hide SubListHandler;
    SubListsKeepKey(lists, PATCH_LIST, "type");
    PatchedKeys(items, ext, "type", SubListHandler(lists, PATCH_LIST));
    UnnamedElementsStay(items, ext, "type", SubListHandler(lists, PATCH_LIST));
  }

  /** Merging the backends of `channel` or `rpc` from an external list with distinct types, and distinct names inside
      each, is idempotent. */
  lemma MergedBackends(res: Node, ext: Node, lists: map<string, string>)
    requires lists in {CHANNEL_LISTS, RPC_LISTS} && ext.Sequence?
    requires AllKeyed(ext.items, "type") && Distinct(Keys(ext.items, "type"))
    requires forall e, k | e in ext.items && e.Map? && k in e.fields && k in lists && e.fields[k].Sequence? ::
               AllKeyed(e.fields[k].items, lists[k]) && Distinct(Keys(e.fields[k].items, lists[k]))
    requires MergeListNode(res, ext, "type", SubListHandler(lists, MERGE_LIST)).Ok?
    ensures var h := SubListHandler(lists, MERGE_LIST);
            MergeListNode(MergeListNode(res, ext, "type", h).value, ext, "type", h) ==
            MergeListNode(res, ext, "type", h)
  {
    hide KeepsKey; hide Idempotent; hide MergeListNode; hide SubListHandler; hide ListAgain;
    SubListsKeepKey(lists, MERGE_LIST, "type");
    forall e | e in ext.items ensures Idempotent(SubListHandler(lists, MERGE_LIST), e, "type") {
      if e.Map? {
        forall k | k in e.fields && k in lists ensures ListAgain(e.fields[k], lists[k], MERGE_LIST) {
          MergeListAgain(e.fields[k], lists[k]);
        }
      }
      SubListsIdempotent(e, lists, MERGE_LIST, "type");
    }
    MergeNodeTwice(res, ext, "type", SubListHandler(lists, MERGE_LIST));
  }

  /** Untagged items that patch backends: with plain lists inside they merge once, so it is known exactly when the
      patch is idempotent. */
  lemma BackendsIdempotentExactly(ext: Node, lists: map<string, string>)
    requires lists in {CHANNEL_LISTS, RPC_LISTS}
    requires Itemwise(ext) ==> Proper(ext.items, "type") && forall op | op in Ops(ext.items, "type") :: Usable(op)
    requires Itemwise(ext) ==> forall e, k | e in ext.items && e.Map? && k in e.fields && k in lists ::
               PlainPatch(e.fields[k], lists[k])
    ensures var h := SubListHandler(lists, PATCH_LIST);
            (forall res | NodeAccepted(res, ext, "type", h) ::
               PatchListNode(PatchListNode(res, ext, "type", h).value, ext, "type", h) ==
               PatchListNode(res, ext, "type", h))
            <==> SteadyNode(ext, "type")
  {
    hide KeepsKey; hide Idempotent; hide PatchListNode; hide SubListHandler; hide ListAgain; hide PlainPatch;
    hide ModesOf; hide NodeAccepted; hide SteadyNode;
    var h := SubListHandler(lists, PATCH_LIST);
    SubListsKeepKey(lists, PATCH_LIST, "type");
    if Itemwise(ext) {
      forall e | e in ext.items ensures MergesOnce(e, "type", h) {
        if e.Map? {
          forall k | k in e.fields && k in lists ensures ListAgain(e.fields[k], lists[k], PATCH_LIST) {
            PatchListAgain(e.fields[k], lists[k]);
          }
        }
        SubListsIdempotent(e, lists, PATCH_LIST, "type");
      }
    }
    NodeIdempotentExactly(ext, "type", h);
  }

  // ---------- options of topics and functions ----------

  const BACKENDS := "enable_backends"
  const FILTERS := "enable_filters"

  /** The handler for the options of topics, clients and servers: two lists of names are patched, nothing else
      is touched. */
  const PATCH_OPTIONS: Handler := (res, ext) => PatchOptions(res, ext)

  function PatchOptions(res: Node, ext: Node): Result<Node, Failure> {
    if !res.Map? || !ext.Map? then Err(BadKey)
    else match PatchListNode(Field(res.fields, BACKENDS), Field(ext.fields, BACKENDS), "", MERGE_MAP)
      case Err(error) => Err(error)
      case Ok(backends) =>
        match PatchListNode(Field(res.fields, FILTERS), Field(ext.fields, FILTERS), "", MERGE_MAP)
        case Err(error) => Err(error)
        case Ok(filters) => Ok(res.(fields := res.fields[BACKENDS := backends][FILTERS := filters]))
  }

  /** So the theorems about patched lists hold for it. */
  lemma OptionsKeepKey(id: string)
    requires id != BACKENDS && id != FILTERS
    ensures KeepsKey(PATCH_OPTIONS, id)
  {
    hide PatchListNode;
    forall r, e | KeyOf(e, id).Some? && KeyOf(r, id) == KeyOf(e, id) && PATCH_OPTIONS(r, e).Ok?
      ensures KeyOf(PATCH_OPTIONS(r, e).value, id) == KeyOf(e, id)
    {
      assert PATCH_OPTIONS(r, e) == PatchOptions(r, e);
    }
  }

  /** Both lists of the options are patched, each by its own, and everything else stays. */
  lemma OptionsAt(res: Node, ext: Node, name: string)
    requires res.Map? && ext.Map?
    ensures PATCH_OPTIONS(res, ext).Ok? <==>
              && PatchListNode(Field(res.fields, BACKENDS), Field(ext.fields, BACKENDS), "", MERGE_MAP).Ok?
              && PatchListNode(Field(res.fields, FILTERS), Field(ext.fields, FILTERS), "", MERGE_MAP).Ok?
    ensures PATCH_OPTIONS(res, ext).Ok? ==>
              && PATCH_OPTIONS(res, ext).value.Map?
              && var field := Field(PATCH_OPTIONS(res, ext).value.fields, name);
                 if name in {BACKENDS, FILTERS} then
                   Ok(field) == PatchListNode(Field(res.fields, name), Field(ext.fields, name), "", MERGE_MAP)
                 else field == Field(res.fields, name)
  {
    hide PatchListNode;
    assert PATCH_OPTIONS(res, ext) == PatchOptions(res, ext);
    assert BACKENDS[7] != FILTERS[7];
  }

  /** Options that have both lists, and plain ones, are patched idempotently. */
  lemma OptionsIdempotent(e: Node, id: string)
    requires e.Map? && BACKENDS in e.fields && FILTERS in e.fields
    requires PlainPatch(e.fields[BACKENDS], "") && PlainPatch(e.fields[FILTERS], "")
    ensures Idempotent(PATCH_OPTIONS, e, id)
  {
    hide PatchListNode; hide PlainPatch;
    PatchListAgain(e.fields[BACKENDS], "");
    PatchListAgain(e.fields[FILTERS], "");
    var b, f := e.fields[BACKENDS], e.fields[FILTERS];
    assert PATCH_LIST(b, b, "") == Ok(b) && PATCH_LIST(f, f, "") == Ok(f);
    assert e.fields[BACKENDS := b][FILTERS := f] == e.fields;
    forall r | PatchOptions(r, e).Ok? ensures PatchOptions(PatchOptions(r, e).value, e) == PatchOptions(r, e) {
      OptionsTwice(r, e);
    }
  }

  lemma OptionsTwice(r: Node, e: Node)
    requires e.Map? && BACKENDS in e.fields && FILTERS in e.fields && PatchOptions(r, e).Ok?
    requires ListAgain(e.fields[BACKENDS], "", PATCH_LIST) && ListAgain(e.fields[FILTERS], "", PATCH_LIST)
    ensures PatchOptions(PatchOptions(r, e).value, e) == PatchOptions(r, e)
  {
    hide PatchListNode;
    var out := PatchOptions(r, e).value;
    var b, f := out.fields[BACKENDS], out.fields[FILTERS];
    assert PATCH_LIST(Field(r.fields, BACKENDS), e.fields[BACKENDS], "") == Ok(b);
    assert PATCH_LIST(Field(r.fields, FILTERS), e.fields[FILTERS], "") == Ok(f);
    assert PATCH_LIST(b, e.fields[BACKENDS], "") == Ok(b) && PATCH_LIST(f, e.fields[FILTERS], "") == Ok(f);
    assert out.fields[BACKENDS := b][FILTERS := f] == out.fields;
  }
}

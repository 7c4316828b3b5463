/** `cfg::details::MergeMapNode`: the recursive merge as a function, and the loop with an explicit stack of
    positions, which edits the document in place and is proved equal to it. */
module MergeMap {
  import opened Sequences
  import opened Yaml

  /** The fields of `ext` win over those of `res`, key by key and level by level. */
  function Merge(res: Node, ext: Node): Node
    decreases ext
  {
    if IsUndefined(ext) then res
    else if !res.Map? || !ext.Map? then ext
    else res.(fields := map k | k in res.fields.Keys + ext.fields.Keys ::
                          if k in ext.fields then Merge(Field(res.fields, k), ext.fields[k]) else res.fields[k])
  }

  // ---------- what the merge means ----------

  lemma {:induction false} MergeSelf(e: Node)
    ensures Merge(e, e) == e
    decreases e
  {
    if e.Map? {
      forall k | k in e.fields ensures Merge(e.fields[k], e.fields[k]) == e.fields[k] {
        MergeSelf(e.fields[k]);
      }
      assert Merge(e, e).fields == e.fields;
    }
  }

  /** Merging the same configuration again changes nothing. */
  lemma {:induction false} MergeIdempotent(res: Node, ext: Node)
    ensures Merge(Merge(res, ext), ext) == Merge(res, ext)
    decreases ext
  {
    if res.Map? && ext.Map? {
      var m := Merge(res, ext);
      forall k | k in ext.fields ensures Merge(m.fields[k], ext.fields[k]) == m.fields[k] {
        MergeIdempotent(Field(res.fields, k), ext.fields[k]);
      }
      assert Merge(m, ext).fields == m.fields;
    } else if !IsUndefined(ext) {
      MergeSelf(ext);
    }
  }

  /** `ext` holds a value that is not a map strictly above the position. */
  predicate CutOff(ext: Node, p: Path)
    decreases |p|
  {
    && p != []
    && !IsUndefined(ext)
    && (!ext.Map? || CutOff(Field(ext.fields, p[0]), p[1..]))
  }

  /** Equal, or both absent. */
  predicate SameValue(a: Node, b: Node) {
    a == b || (IsUndefined(a) && IsUndefined(b))
  }

  /** The merge is exact at every position: where a value of `ext` cuts the position off nothing is left
      of `res`; everywhere else the result is the merge of the two nodes at that position. */
  lemma {:induction false} MergeAt(res: Node, ext: Node, p: Path)
    ensures CutOff(ext, p) ==> At(Merge(res, ext), p) == Undefined
    ensures !CutOff(ext, p) ==> SameValue(At(Merge(res, ext), p), Merge(At(res, p), At(ext, p)))
    decreases |p|
  {
    if p != [] && !IsUndefined(ext) && ext.Map? {
      if res.Map? {
        MergeAt(Field(res.fields, p[0]), Field(ext.fields, p[0]), p[1..]);
      } else if CutOff(ext, p) {
        CutOffIsUndefined(ext, p);
      }
      AtUndefined(p[1..]);
    }
  }

  lemma {:induction false} AtUndefined(p: Path)
    ensures At(Undefined, p) == Undefined
  {
    if p != [] {
      AtUndefined(p[1..]);
    }
  }

  lemma {:induction false} CutOffIsUndefined(ext: Node, p: Path)
    requires CutOff(ext, p)
    ensures At(ext, p) == Undefined
    decreases |p|
  {
    if ext.Map? {
      CutOffIsUndefined(Field(ext.fields, p[0]), p[1..]);
    }
  }

  /** A position that holds a value other than a map in `ext` holds that value in the result. */
  lemma ExtValueWins(res: Node, ext: Node, p: Path)
    requires !IsUndefined(At(ext, p)) && !At(ext, p).Map?
    ensures At(Merge(res, ext), p) == At(ext, p)
  {
    MergeAt(res, ext, p);
    if CutOff(ext, p) {
      CutOffIsUndefined(ext, p);
    }
  }

  /** A position that `ext` neither defines nor cuts off keeps its value from `res`. */
  lemma UntouchedValueStays(res: Node, ext: Node, p: Path)
    requires IsUndefined(At(ext, p)) && !CutOff(ext, p)
    ensures SameValue(At(Merge(res, ext), p), At(res, p))
  {
    MergeAt(res, ext, p);
  }

  // ---------- the loop with an explicit stack ----------

  /** A pair on the stack: a position of the document and what is to be merged in there. */
  datatype Pending = Pending(path: Path, ext: Node)

  /** Pending merges sit at existing positions, none on the way to another. */
  ghost predicate Separate(root: Node, todo: seq<Pending>) {
    && (forall i | 0 <= i < |todo| :: Exists(root, todo[i].path))
    && (forall i, j | 0 <= i < j < |todo| :: Apart(todo[i].path, todo[j].path))
  }

  function MergeInto(root: Node, w: Pending): Node
    requires Exists(root, w.path)
  {
    Put(root, w.path, Merge(At(root, w.path), w.ext))
  }

  ghost predicate AllApart(todo: seq<Pending>, p: Path) {
    forall i | 0 <= i < |todo| :: Apart(todo[i].path, p)
  }

  lemma PutKeepsSeparate(root: Node, todo: seq<Pending>, p: Path, x: Node)
    requires Separate(root, todo) && Exists(root, p) && AllApart(todo, p)
    ensures Separate(Put(root, p, x), todo)
  {
    forall i | 0 <= i < |todo| ensures Exists(Put(root, p, x), todo[i].path) {
      ApartIsSymmetric(p, todo[i].path);
      PutElsewhere(root, p, x, todo[i].path);
    }
  }

  lemma PopSeparate(root: Node, rest: seq<Pending>, w: Pending)
    requires Separate(root, rest + [w])
    ensures Separate(root, rest) && Exists(root, w.path) && AllApart(rest, w.path)
  {
    assert (rest + [w])[|rest|] == w;
    assert forall i | 0 <= i < |rest| :: (rest + [w])[i] == rest[i];
  }

  lemma PushSeparate(root: Node, rest: seq<Pending>, w: Pending)
    requires Separate(root, rest) && Exists(root, w.path) && AllApart(rest, w.path)
    ensures Separate(root, rest + [w])
  {
  }

  /** What the document becomes when all pending merges are done, the last one first. */
  ghost function Settle(root: Node, todo: seq<Pending>): Node
    requires Separate(root, todo)
    decreases |todo|
  {
    if todo == [] then root
    else
      var rest, w := todo[..|todo| - 1], todo[|todo| - 1];
      assert rest + [w] == todo;
      PopSeparate(root, rest, w);
      PutKeepsSeparate(root, rest, w.path, Merge(At(root, w.path), w.ext));
      Settle(MergeInto(root, w), rest)
  }

  lemma SettleLast(root: Node, rest: seq<Pending>, w: Pending)
    requires Separate(root, rest + [w])
    ensures Exists(root, w.path) && Separate(MergeInto(root, w), rest)
    ensures Settle(root, rest + [w]) == Settle(MergeInto(root, w), rest)
  {
    assert (rest + [w])[..|rest|] == rest;
    PopSeparate(root, rest, w);
    PutKeepsSeparate(root, rest, w.path, Merge(At(root, w.path), w.ext));
  }

  // ---------- the order of the pending merges does not matter ----------

  lemma MergesCommute(root: Node, w: Pending, z: Pending)
    requires Exists(root, w.path) && Exists(root, z.path) && Apart(w.path, z.path)
    ensures Exists(MergeInto(root, w), z.path) && Exists(MergeInto(root, z), w.path)
    ensures MergeInto(MergeInto(root, w), z) == MergeInto(MergeInto(root, z), w)
  {
    var x, y := Merge(At(root, w.path), w.ext), Merge(At(root, z.path), z.ext);
    ApartIsSymmetric(w.path, z.path);
    PutElsewhere(root, w.path, x, z.path);
    PutElsewhere(root, z.path, y, w.path);
    PutsCommute(root, w.path, x, z.path, y);
  }

  lemma {:induction false} SettleMoved(root: Node, a: seq<Pending>, w: Pending, b: seq<Pending>)
    requires Separate(root, (a + [w]) + b)
    ensures Separate(root, (a + b) + [w])
    ensures Settle(root, (a + [w]) + b) == Settle(root, (a + b) + [w])
    decreases |b|
  {
    if b == [] {
      assert (a + [w]) + b == (a + b) + [w];
    } else {
      hide Separate; hide AllApart; hide Settle; hide MergeInto; hide Exists; hide Apart;
      var b', z := b[..|b| - 1], b[|b| - 1];
      assert (a + [w]) + b == ((a + [w]) + b') + [z] && a + b == (a + b') + [z];
      PopSeparate(root, (a + [w]) + b', z);
      SettleLast(root, (a + [w]) + b', z);
      SettleMoved(root, a, w, b');
      SettleMoved(MergeInto(root, z), a, w, b');
      PopSeparate(root, a + b', w);
      SwapSeparate(root, a, w, b', z);
      SettleLast(root, (a + b') + [z], w);
      SettleLast(MergeInto(root, w), a + b', z);
      SettleLast(MergeInto(root, z), a + b', w);
      MergesCommute(root, w, z);
    }
  }

  lemma SwapSeparate(root: Node, a: seq<Pending>, w: Pending, b: seq<Pending>, z: Pending)
    requires Separate(root, ((a + [w]) + b) + [z])
    ensures Separate(root, ((a + b) + [z]) + [w]) && Apart(w.path, z.path)
    ensures Exists(root, w.path) && Exists(root, z.path)
  {
    var s, t := ((a + [w]) + b) + [z], ((a + b) + [z]) + [w];
    var n := |a|;
    assert s[n] == w && s[|s| - 1] == z;
    assert forall i | 0 <= i < n :: t[i] == s[i];
    assert forall i | n <= i < |t| - 1 :: t[i] == s[i + 1];
    forall i, j | 0 <= i < j < |t| ensures Apart(t[i].path, t[j].path) {
      var i', j' := if i < n then i else i + 1, if j == |t| - 1 then n else if j < n then j else j + 1;
      assert t[i] == s[i'] && t[j] == s[j'];
      ApartIsSymmetric(s[i'].path, s[j'].path);
    }
  }

  lemma SplitOff(a: seq<Pending>, b: seq<Pending>, w: Pending) returns (x: seq<Pending>, y: seq<Pending>)
    requires multiset(a) == multiset(b + [w])
    ensures a == (x + [w]) + y && multiset(x + y) == multiset(b)
  {
    assert w in multiset(a);
    var i :| 0 <= i < |a| && a[i] == w;
    x, y := a[..i], a[i + 1..];
    assert a == (x + [w]) + y;
    assert multiset(a) == multiset(x) + multiset([w]) + multiset(y);
    assert multiset(b + [w]) == multiset(b) + multiset([w]);
    assert multiset(x + y) == multiset(x) + multiset(y);
    assert multiset(x + y) + multiset([w]) == multiset(b) + multiset([w]);
    assert multiset(x + y) == (multiset(x + y) + multiset([w])) - multiset([w]);
    assert multiset(b) == (multiset(b) + multiset([w])) - multiset([w]);
  }

  lemma AllApartPermuted(a: seq<Pending>, b: seq<Pending>, p: Path)
    requires AllApart(a, p) && multiset(a) == multiset(b)
    ensures AllApart(b, p)
  {
    forall j | 0 <= j < |b| ensures Apart(b[j].path, p) {
      assert b[j] in multiset(a);
    }
  }

  /** The pairs may be popped in any order: every permutation settles to the same document. */
  lemma {:induction false} OrderDoesNotMatter(root: Node, a: seq<Pending>, b: seq<Pending>)
    requires Separate(root, a) && multiset(a) == multiset(b)
    ensures Separate(root, b) && Settle(root, b) == Settle(root, a)
    decreases |b|
  {
    hide Separate; hide AllApart; hide Settle; hide MergeInto; hide Exists;
    if b == [] {
      assert |a| == |multiset(a)| == 0;
    } else {
      var b', w := b[..|b| - 1], b[|b| - 1];
      assert b == b' + [w];
      var x, y := SplitOff(a, b', w);
      SettleMoved(root, x, w, y);
      SettleLast(root, x + y, w);
      PopSeparate(root, x + y, w);
      OrderDoesNotMatter(root, x + y, b');
      OrderDoesNotMatter(MergeInto(root, w), x + y, b');
      AllApartPermuted(x + y, b', w.path);
      PushSeparate(root, b', w);
      SettleLast(root, b', w);
    }
  }

  /** The pairs that one level of the loop pushes, for the keys of `ext` in the order of iteration. */
  function Children(p: Path, ext: Node, ks: seq<string>): seq<Pending>
    requires ext.Map? && forall k | k in ks :: k in ext.fields
  {
    seq(|ks|, i requires 0 <= i < |ks| => Pending(p + [ks[i]], ext.fields[ks[i]]))
  }

  /** `res` merged with `ext` at the given keys only. */
  function MergeOn(res: Node, ext: Node, ks: seq<string>): Node
    requires res.Map? && ext.Map? && forall k | k in ks :: k in ext.fields
  {
    res.(fields := map k | k in res.fields :: if k in ks then Merge(res.fields[k], ext.fields[k]) else res.fields[k])
  }

  ghost predicate Expandable(root: Node, rest: seq<Pending>, p: Path, ext: Node, ks: seq<string>) {
    && Separate(root, rest) && Exists(root, p) && AllApart(rest, p)
    && At(root, p).Map? && ext.Map?
    && Distinct(ks)
    && (forall k | k in ks :: k in ext.fields && k in At(root, p).fields)
  }

  lemma ChildApartFromAll(root: Node, rest: seq<Pending>, p: Path, ext: Node, ks: seq<string>, k: string)
    requires AllApart(rest, p) && ext.Map? && k !in ks && forall x | x in ks :: x in ext.fields
    ensures AllApart(rest + Children(p, ext, ks), p + [k])
  {
    var all := rest + Children(p, ext, ks);
    forall i | 0 <= i < |all| ensures Apart(all[i].path, p + [k]) {
      if i < |rest| {
        ApartIsSymmetric(rest[i].path, p);
        ChildApart(p, rest[i].path, k);
        ApartIsSymmetric(rest[i].path, p + [k]);
      } else {
        ChildrenApart(p, ks[i - |rest|], k);
      }
    }
  }

  lemma {:induction false} ChildrenSeparate(root: Node, rest: seq<Pending>, p: Path, ext: Node, ks: seq<string>)
    requires Expandable(root, rest, p, ext, ks)
    ensures Separate(root, rest + Children(p, ext, ks))
    decreases |ks|
  {
    if ks == [] {
      assert rest + Children(p, ext, ks) == rest;
    } else {
      var ks', k := ks[..|ks| - 1], ks[|ks| - 1];
      ChildrenSeparate(root, rest, p, ext, ks');
      ChildApartFromAll(root, rest, p, ext, ks', k);
      PutChild(root, p, k, ext);
      PushSeparate(root, rest + Children(p, ext, ks'), Pending(p + [k], ext.fields[k]));
      LastChild(rest, p, ext, ks);
    }
  }

  lemma LastChild(rest: seq<Pending>, p: Path, ext: Node, ks: seq<string>)
    requires ks != [] && ext.Map? && forall k | k in ks :: k in ext.fields
    ensures var ks', k := ks[..|ks| - 1], ks[|ks| - 1];
            rest + Children(p, ext, ks) == (rest + Children(p, ext, ks')) + [Pending(p + [k], ext.fields[k])]
  {
  }

  /** The document after the merge at one child. */
  function MergeChild(root: Node, p: Path, ext: Node, k: string): Node
    requires Exists(root, p) && At(root, p).Map? && k in At(root, p).fields && ext.Map? && k in ext.fields
  {
    var res := At(root, p);
    Put(root, p, res.(fields := res.fields[k := Merge(res.fields[k], ext.fields[k])]))
  }

  lemma MergeChildKeeps(root: Node, rest: seq<Pending>, p: Path, ext: Node, ks: seq<string>, k: string)
    requires Expandable(root, rest, p, ext, ks + [k])
    ensures Exists(root, p + [k])
    ensures MergeInto(root, Pending(p + [k], ext.fields[k])) == MergeChild(root, p, ext, k)
    ensures Expandable(MergeChild(root, p, ext, k), rest, p, ext, ks)
    ensures Put(MergeChild(root, p, ext, k), p, MergeOn(At(MergeChild(root, p, ext, k), p), ext, ks))
         == Put(root, p, MergeOn(At(root, p), ext, ks + [k]))
  {
    var res := At(root, p);
    var res1 := res.(fields := res.fields[k := Merge(res.fields[k], ext.fields[k])]);
    PutChild(root, p, k, Merge(res.fields[k], ext.fields[k]));
    PutThenAt(root, p, res1);
    PutKeepsSeparate(root, rest, p, res1);
    PutTwice(root, p, res1, MergeOn(res1, ext, ks));
    assert (ks + [k])[|ks|] == k && forall i | 0 <= i < |ks| :: (ks + [k])[i] == ks[i];
    assert MergeOn(res1, ext, ks) == MergeOn(res, ext, ks + [k]);
  }

  /** Doing the merges of one level's children is doing the merge of that level. */
  lemma {:induction false} ChildrenSettle(root: Node, rest: seq<Pending>, p: Path, ext: Node, ks: seq<string>)
    requires Expandable(root, rest, p, ext, ks) && Separate(root, rest + Children(p, ext, ks))
    ensures Separate(Put(root, p, MergeOn(At(root, p), ext, ks)), rest)
    ensures Settle(root, rest + Children(p, ext, ks)) == Settle(Put(root, p, MergeOn(At(root, p), ext, ks)), rest)
    decreases |ks|
  {
    hide Separate; hide AllApart; hide Settle; hide At; hide Put; hide Exists; hide Merge; hide MergeChild;
    hide MergeInto;
    PutKeepsSeparate(root, rest, p, MergeOn(At(root, p), ext, ks));
    if ks == [] {
      assert rest + Children(p, ext, ks) == rest;
      assert MergeOn(At(root, p), ext, ks) == At(root, p);
      PutThePresent(root, p);
    } else {
      var ks', k := ks[..|ks| - 1], ks[|ks| - 1];
      assert ks == ks' + [k];
      var w := Pending(p + [k], ext.fields[k]);
      LastChild(rest, p, ext, ks);
      SettleLast(root, rest + Children(p, ext, ks'), w);
      MergeChildKeeps(root, rest, p, ext, ks', k);
      ChildrenSettle(MergeChild(root, p, ext, k), rest, p, ext, ks');
    }
  }

  // ---------- why the loop ends ----------

  /** How many pairs the merge of `n` can ever push. */
  ghost function Size(n: Node): nat
    decreases n
  {
    if n.Map? then 1 + FieldsSize(n, n.fields.Keys) else 1
  }

  ghost function FieldsSize(n: Node, ks: set<string>): nat
    requires n.Map? && ks <= n.fields.Keys
    decreases n, ks
  {
    if ks == {} then 0
    else
      var k :| k in ks;
      Size(n.fields[k]) + FieldsSize(n, ks - {k})
  }

  lemma {:induction false} FieldsSizeAny(n: Node, ks: set<string>, k: string)
    requires n.Map? && ks <= n.fields.Keys && k in ks
    ensures FieldsSize(n, ks) == Size(n.fields[k]) + FieldsSize(n, ks - {k})
    decreases ks
  {
    var l :| l in ks && FieldsSize(n, ks) == Size(n.fields[l]) + FieldsSize(n, ks - {l});
    if l != k {
      FieldsSizeAny(n, ks - {l}, k);
      FieldsSizeAny(n, ks - {k}, l);
      assert ks - {l} - {k} == ks - {k} - {l};
    }
  }

  ghost function TotalSize(todo: seq<Pending>): nat
    decreases |todo|
  {
    if todo == [] then 0 else TotalSize(todo[..|todo| - 1]) + Size(todo[|todo| - 1].ext)
  }

  lemma TotalSizePush(todo: seq<Pending>, w: Pending)
    ensures TotalSize(todo + [w]) == TotalSize(todo) + Size(w.ext)
  {
    assert (todo + [w])[..|todo|] == todo;
  }

  // ---------- the document ----------

  /** `res[key]`: the entry is created if it was missing. */
  function WithEntry(res: Node, k: string): Node
    requires res.Map?
  {
    if k in res.fields then res else res.(fields := res.fields[k := Undefined])
  }

  ghost function WithEntries(res: Node, ks: seq<string>): Node
    requires res.Map?
  {
    res.(fields := map k | k in res.fields.Keys + (set k | k in ks) :: Field(res.fields, k))
  }

  lemma OneMoreEntry(res: Node, ks: seq<string>, k: string)
    requires res.Map?
    ensures WithEntry(WithEntries(res, ks), k) == WithEntries(res, ks + [k])
  {
  }

  lemma OneMoreChild(todo: seq<Pending>, p: Path, ext: Node, ks: seq<string>, k: string)
    requires ext.Map? && k in ext.fields && forall x | x in ks :: x in ext.fields
    ensures todo + Children(p, ext, ks + [k]) == (todo + Children(p, ext, ks)) + [Pending(p + [k], ext.fields[k])]
    ensures TotalSize(todo + Children(p, ext, ks + [k])) == TotalSize(todo + Children(p, ext, ks)) + Size(ext.fields[k])
  {
    TotalSizePush(todo + Children(p, ext, ks), Pending(p + [k], ext.fields[k]));
  }

  /** Once every field of `ext` has been pushed, settling the pairs is merging the two maps. */
  lemma LevelSettles(root0: Node, root: Node, rest: seq<Pending>, w: Pending, ks: seq<string>)
    requires Separate(root0, rest + [w])
    requires Exists(root0, w.path) && At(root0, w.path).Map? && w.ext.Map?
    requires Distinct(ks) && forall k :: k in ks <==> k in w.ext.fields
    requires root == Put(root0, w.path, WithEntries(At(root0, w.path), ks))
    ensures Separate(root, rest + Children(w.path, w.ext, ks))
    ensures Settle(root, rest + Children(w.path, w.ext, ks)) == Settle(root0, rest + [w])
  {
    var p, ext, res0 := w.path, w.ext, At(root0, w.path);
    var res := WithEntries(res0, ks);
    PopSeparate(root0, rest, w);
    PutThenAt(root0, p, res);
    PutKeepsSeparate(root0, rest, p, res);
    assert Expandable(root, rest, p, ext, ks);
    ChildrenSeparate(root, rest, p, ext, ks);
    ChildrenSettle(root, rest, p, ext, ks);
    assert MergeOn(res, ext, ks).fields == Merge(res0, ext).fields;
    PutTwice(root0, p, res, Merge(res0, ext));
    SettleLast(root0, rest, w);
  }

  class Document {
    var root: Node

    constructor (n: Node)
      ensures root == n
    {
      root := n;
    }

    /** Pushes one pair per field of `ext`, in any order, looking the key up in `res` first. */
    method PushFields(rest: seq<Pending>, curr: Pending) returns (stack: seq<Pending>)
      requires Separate(root, rest + [curr])
      requires Exists(root, curr.path) && At(root, curr.path).Map? && curr.ext.Map?
      modifies this
      ensures Separate(root, stack)
      ensures Settle(root, stack) == old(Settle(root, rest + [curr]))
      ensures TotalSize(stack) < TotalSize(rest + [curr])
    {
      hide Separate; hide Settle; hide WithEntries; hide Put; hide At; hide Exists; hide TotalSize;
      ghost var root0 := root;
      var p, ext := curr.path, curr.ext;
      var todo := ext.fields.Keys;
      stack := rest;
      ghost var ks: seq<string> := [];
      NoEntryYet(root0, p);
      assert rest + Children(p, ext, ks) == rest;
      while todo != {}
        invariant todo <= ext.fields.Keys
        invariant Distinct(ks) && forall k :: k in ks <==> k in ext.fields && k !in todo
        invariant Exists(root, p) && At(root, p).Map? && At(root, p) == WithEntries(At(root0, p), ks)
        invariant root == Put(root0, p, At(root, p))
        invariant stack == rest + Children(p, ext, ks)
        invariant TotalSize(stack) + FieldsSize(ext, todo) == TotalSize(rest) + FieldsSize(ext, ext.fields.Keys)
      {
        var k :| k in todo;
        FieldsSizeAny(ext, todo, k);
        todo := todo - {k};
        LookedUp(root0, root, p, ks, k);
        root := Put(root, p, WithEntry(At(root, p), k));
        OneMoreChild(rest, p, ext, ks, k);
        stack := stack + [Pending(p + [k], ext.fields[k])];
        ks := ks + [k];
      }
      LevelSettles(root0, root, rest, curr, ks);
      TotalSizePush(rest, curr);
    }

    /** Merges `ext` into the whole document. */
    method MergeMapNode(ext: Node)
      modifies this
      ensures root == Merge(old(root), ext)
    {
      var stack := [Pending([], ext)];
      SettleLast(root, [], stack[0]);
      while stack != []
        invariant Separate(root, stack)
        invariant Settle(root, stack) == Merge(old(root), ext)
        decreases TotalSize(stack)
      {
        var curr, rest := stack[|stack| - 1], stack[..|stack| - 1];
        assert stack == rest + [curr];
        SettleLast(root, rest, curr);
        TotalSizePush(rest, curr);
        if IsUndefined(curr.ext) {
          PutThePresent(root, curr.path);
          stack := rest;
        } else if !At(root, curr.path).Map? || !curr.ext.Map? {
          root := Put(root, curr.path, curr.ext);
          stack := rest;
        } else {
          stack := PushFields(rest, curr);
        }
      }
    }
  }

  lemma NoEntryYet(root: Node, p: Path)
    requires Exists(root, p) && At(root, p).Map?
    ensures WithEntries(At(root, p), []) == At(root, p) && Put(root, p, At(root, p)) == root
  {
    PutThePresent(root, p);
    assert WithEntries(At(root, p), []).fields == At(root, p).fields;
  }

  lemma LookedUp(root0: Node, root: Node, p: Path, ks: seq<string>, k: string)
    requires Exists(root0, p) && At(root0, p).Map?
    requires Exists(root, p) && At(root, p) == WithEntries(At(root0, p), ks) && root == Put(root0, p, At(root, p))
    ensures var root' := Put(root, p, WithEntry(At(root, p), k));
            && Exists(root', p) && At(root', p).Map? && At(root', p) == WithEntries(At(root0, p), ks + [k])
            && root' == Put(root0, p, At(root', p))
  {
    OneMoreEntry(At(root0, p), ks, k);
    PutThenAt(root, p, WithEntry(At(root, p), k));
    PutTwice(root0, p, At(root, p), WithEntry(At(root, p), k));
  }
}

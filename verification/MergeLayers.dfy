/** Three layers of configuration: when it does not matter which two are merged first.

    A field that is null, was looked up but never assigned, or is missing counts as absent; the first theorem takes
    these for the same, the second tells them apart as yaml-cpp does. */
module MergeLayers {
  import opened Yaml
  import opened MergeMap

  // ---------- absent is absent ----------

  /** The same document, up to how a node is absent. */
  predicate Same(a: Node, b: Node)
    decreases a
  {
    if IsUndefined(a) || IsUndefined(b) then IsUndefined(a) && IsUndefined(b)
    else if a.Map? && b.Map? then
      && a.tag == b.tag
      && (forall k | k in a.fields :: Same(a.fields[k], Field(b.fields, k)))
      && (forall k | k in b.fields :: k in a.fields || IsUndefined(b.fields[k]))
    else a == b
  }

  /** Wherever `a` has a value, `c` has one as well, and maps that meet carry the same tag. */
  predicate Covered(a: Node, c: Node)
    decreases a
  {
    if IsUndefined(c) then IsUndefined(a)
    else a.Map? && c.Map? ==> a.tag == c.tag && forall k | k in a.fields :: Covered(a.fields[k], Field(c.fields, k))
  }

  /** Where the middle layer has a value other than a map and the last has a map, the first has nothing that the
      last does not have. */
  predicate Layers(a: Node, b: Node, c: Node)
    decreases c
  {
    if IsUndefined(b) || IsUndefined(c) then true
    else if !b.Map? then c.Map? ==> Covered(a, c)
    else a.Map? && c.Map? ==>
      forall k | k in c.fields && k in b.fields :: Layers(Field(a.fields, k), b.fields[k], c.fields[k])
  }

  lemma {:induction false} SameRefl(a: Node)
    ensures Same(a, a)
    decreases a
  {
    if a.Map? {
      forall k | k in a.fields ensures Same(a.fields[k], a.fields[k]) {
        SameRefl(a.fields[k]);
      }
    }
  }

  lemma AbsentCovers(c: Node)
    ensures Same(Merge(Undefined, c), c)
  {
    SameRefl(c);
  }

  /** Merging onto `a` gives `c` exactly if `c` covers `a`. */
  lemma {:induction false} CoveredMeaning(a: Node, c: Node)
    ensures Same(Merge(a, c), c) <==> Covered(a, c)
    decreases a
  {
    SameRefl(c);
    if a.Map? && c.Map? {
      var m := Merge(a, c);
      forall k | k in a.fields
        ensures Same(m.fields[k], Field(c.fields, k)) <==> Covered(a.fields[k], Field(c.fields, k))
      {
        CoveredMeaning(a.fields[k], Field(c.fields, k));
      }
      forall k | k in c.fields && k !in a.fields ensures Same(m.fields[k], c.fields[k]) {
        AbsentCovers(c.fields[k]);
        assert m.fields[k] == Merge(Undefined, c.fields[k]);
      }
    }
  }

  /** One key of both results. */
  lemma MergeFields(a: Node, b: Node, c: Node, k: string)
    requires a.Map? && b.Map? && c.Map? && k in a.fields.Keys + b.fields.Keys + c.fields.Keys
    ensures k in Merge(Merge(a, b), c).fields && k in Merge(a, Merge(b, c)).fields
    ensures var x, y := Merge(Merge(a, b), c).fields[k], Merge(a, Merge(b, c)).fields[k];
            if k in b.fields && k in c.fields then
              && x == Merge(Merge(Field(a.fields, k), b.fields[k]), c.fields[k])
              && y == Merge(Field(a.fields, k), Merge(b.fields[k], c.fields[k]))
            else x == y
  {
  }

  /** Merging is associative exactly there. */
  lemma {:induction false} MergeAssociates(a: Node, b: Node, c: Node)
    ensures Same(Merge(a, Merge(b, c)), Merge(Merge(a, b), c)) <==> Layers(a, b, c)
    decreases c
  {
    var left, right := Merge(Merge(a, b), c), Merge(a, Merge(b, c));
    SameRefl(left);
    if IsUndefined(b) || IsUndefined(c) {
    } else if !b.Map? {
      CoveredMeaning(a, c);
    } else if a.Map? && c.Map? {
      forall k | k in left.fields
        ensures Same(right.fields[k], left.fields[k]) <==>
                  (k in c.fields && k in b.fields ==> Layers(Field(a.fields, k), b.fields[k], c.fields[k]))
      {
        MergeFields(a, b, c, k);
        SameRefl(left.fields[k]);
        if k in c.fields && k in b.fields {
          MergeAssociates(Field(a.fields, k), b.fields[k], c.fields[k]);
        }
      }
      assert left.fields.Keys == right.fields.Keys;
    }
  }

  // ---------- null, unassigned and missing told apart ----------

  /** The same, also in how nodes are absent. */
  predicate CoveredExactly(a: Node, c: Node)
    decreases c
  {
    if IsUndefined(c) then a == c
    else a.Map? && c.Map? ==>
      && a.tag == c.tag && a.fields.Keys <= c.fields.Keys
      && forall k | k in c.fields :: CoveredExactly(Field(a.fields, k), c.fields[k])
  }

  predicate LayersExactly(a: Node, b: Node, c: Node)
    decreases c
  {
    if IsUndefined(b) || IsUndefined(c) then true
    else if !b.Map? then c.Map? ==> CoveredExactly(a, c)
    else a.Map? && c.Map? ==>
      forall k | k in c.fields && k in b.fields :: LayersExactly(Field(a.fields, k), b.fields[k], c.fields[k])
  }

  lemma {:induction false} CoveredExactlyMeaning(a: Node, c: Node)
    ensures Merge(a, c) == c <==> CoveredExactly(a, c)
    decreases c
  {
    if a.Map? && c.Map? {
      var m := Merge(a, c);
      forall k | k in c.fields ensures m.fields[k] == c.fields[k] <==> CoveredExactly(Field(a.fields, k), c.fields[k]) {
        CoveredExactlyMeaning(Field(a.fields, k), c.fields[k]);
      }
      assert m.fields.Keys == a.fields.Keys + c.fields.Keys;
      assert m == c <==> m.tag == c.tag && m.fields == c.fields;
    }
  }

  /** The two results are equal, node by node, exactly there. */
  lemma {:induction false} MergeAssociatesExactly(a: Node, b: Node, c: Node)
    ensures Merge(Merge(a, b), c) == Merge(a, Merge(b, c)) <==> LayersExactly(a, b, c)
    decreases c
  {
    if !IsUndefined(b) && !b.Map? {
      CoveredExactlyMeaning(a, c);
    } else if a.Map? && b.Map? && c.Map? {
      var left, right := Merge(Merge(a, b), c), Merge(a, Merge(b, c));
      forall k | k in left.fields
        ensures left.fields[k] == right.fields[k] <==>
                  (k in c.fields && k in b.fields ==> LayersExactly(Field(a.fields, k), b.fields[k], c.fields[k]))
      {
        MergeFields(a, b, c, k);
        if k in c.fields && k in b.fields {
          MergeAssociatesExactly(Field(a.fields, k), b.fields[k], c.fields[k]);
        }
      }
      assert left.fields.Keys == right.fields.Keys;
      assert left == right <==> left.fields == right.fields;
    }
  }

  /** A scalar in the middle layer discards the first layer only if it is merged into it first. */
  lemma NotAssociative()
    ensures var a, b := Map("", map["x" := Scalar("", "1")]), Scalar("", "off");
            var c := Map("", map["y" := Scalar("", "2")]);
            && Merge(Merge(a, b), c) == c
            && Merge(a, Merge(b, c)) == Map("", map["x" := Scalar("", "1"), "y" := Scalar("", "2")])
            && !Layers(a, b, c)
  {
    var a, b, c := Map("", map["x" := Scalar("", "1")]), Scalar("", "off"), Map("", map["y" := Scalar("", "2")]);
    assert !Covered(a.fields["x"], Field(c.fields, "x"));
  }

  /** Null and missing differ in the second theorem only: an empty first layer and a null in the last one. */
  lemma NullIsNotMissing()
    ensures var a, b, c := Map("", map[]), Scalar("", "off"), Map("", map["k" := Null("")]);
            Layers(a, b, c) && !LayersExactly(a, b, c) && Merge(a, Merge(b, c)) == Map("", map["k" := Undefined])
  {
    var a, b, c := Map("", map[]), Scalar("", "off"), Map("", map["k" := Null("")]);
    assert !CoveredExactly(Field(a.fields, "k"), c.fields["k"]);
  }
}

/** YAML documents as the configuration code sees them: trees whose maps have text keys.

    `Undefined` is the node that a map holds under a key that was looked up but never assigned; it counts as
    absent, like null.  Tags are the resolved tag texts. */
module Yaml {

  datatype Node =
    | Undefined
    | Null(tag: string)
    | Scalar(tag: string, text: string)
    | Sequence(tag: string, items: seq<Node>)
    | Map(tag: string, fields: map<string, Node>)

  predicate IsUndefined(n: Node) {
    n.Undefined? || n.Null?
  }

  /** What `node[key]` denotes on a map. */
  function Field(fields: map<string, Node>, key: string): Node {
    if key in fields then fields[key] else Undefined
  }

  // ---------- positions ----------

  type Path = seq<string>

  /** The node at a position; `Undefined` where there is none. */
  function At(n: Node, p: Path): Node
    decreases |p|
  {
    if p == [] then n
    else if n.Map? then At(Field(n.fields, p[0]), p[1..])
    else Undefined
  }

  /** The position exists: every step leads to a key of a map. */
  predicate Exists(n: Node, p: Path)
    decreases |p|
  {
    p == [] || (n.Map? && p[0] in n.fields && Exists(n.fields[p[0]], p[1..]))
  }

  /** The document with another node at an existing position. */
  function Put(n: Node, p: Path, x: Node): Node
    requires Exists(n, p)
    decreases |p|
  {
    if p == [] then x else n.(fields := n.fields[p[0] := Put(n.fields[p[0]], p[1..], x)])
  }

  /** Neither position lies on the way to the other. */
  predicate Apart(p: Path, q: Path)
    decreases |p|
  {
    p != [] && q != [] && (p[0] != q[0] || Apart(p[1..], q[1..]))
  }

  lemma {:induction false} ApartIsSymmetric(p: Path, q: Path)
    ensures Apart(p, q) == Apart(q, p)
    decreases |p|
  {
    if p != [] && q != [] {
      ApartIsSymmetric(p[1..], q[1..]);
    }
  }

  lemma {:induction false} PutThenAt(n: Node, p: Path, x: Node)
    requires Exists(n, p)
    ensures Exists(Put(n, p, x), p) && At(Put(n, p, x), p) == x
    decreases |p|
  {
    if p != [] {
      PutThenAt(n.fields[p[0]], p[1..], x);
    }
  }

  lemma {:induction false} PutThePresent(n: Node, p: Path)
    requires Exists(n, p)
    ensures Put(n, p, At(n, p)) == n
    decreases |p|
  {
    if p != [] {
      PutThePresent(n.fields[p[0]], p[1..]);
      assert n.fields[p[0] := n.fields[p[0]]] == n.fields;
    }
  }

  lemma {:induction false} PutTwice(n: Node, p: Path, x: Node, y: Node)
    requires Exists(n, p)
    ensures Exists(Put(n, p, x), p) && Put(Put(n, p, x), p, y) == Put(n, p, y)
    decreases |p|
  {
    if p != [] {
      PutTwice(n.fields[p[0]], p[1..], x, y);
      var a, b := Put(n.fields[p[0]], p[1..], x), Put(n.fields[p[0]], p[1..], y);
      assert n.fields[p[0] := a][p[0] := b] == n.fields[p[0] := b];
    }
  }

  /** A change at one position is not seen at a position apart from it. */
  lemma {:induction false} PutElsewhere(n: Node, p: Path, x: Node, q: Path)
    requires Exists(n, p) && Apart(p, q)
    ensures Exists(Put(n, p, x), q) == Exists(n, q)
    ensures At(Put(n, p, x), q) == At(n, q)
    decreases |p|
  {
    if p[0] == q[0] {
      PutElsewhere(n.fields[p[0]], p[1..], x, q[1..]);
    }
  }

  /** Changes at positions apart from each other commute. */
  lemma {:induction false} PutsCommute(n: Node, p: Path, x: Node, q: Path, y: Node)
    requires Exists(n, p) && Exists(n, q) && Apart(p, q)
    ensures Exists(Put(n, p, x), q) && Exists(Put(n, q, y), p)
    ensures Put(Put(n, p, x), q, y) == Put(Put(n, q, y), p, x)
    decreases |p|
  {
    PutElsewhere(n, p, x, q);
    ApartIsSymmetric(p, q);
    PutElsewhere(n, q, y, p);
    if p[0] == q[0] {
      PutsCommute(n.fields[p[0]], p[1..], x, q[1..], y);
      var a := Put(n.fields[p[0]], p[1..], x);
      var b := Put(n.fields[p[0]], q[1..], y);
      assert n.fields[p[0] := a][p[0] := Put(a, q[1..], y)] == n.fields[p[0] := b][p[0] := Put(b, p[1..], x)];
    } else {
      var a := Put(n.fields[p[0]], p[1..], x);
      var b := Put(n.fields[q[0]], q[1..], y);
      assert n.fields[p[0] := a][q[0] := b] == n.fields[q[0] := b][p[0] := a];
    }
  }

  /** A child of an existing map is reached through its parent. */
  lemma {:induction false} PutChild(n: Node, p: Path, k: string, x: Node)
    requires Exists(n, p) && At(n, p).Map? && k in At(n, p).fields
    ensures Exists(n, p + [k]) && At(n, p + [k]) == At(n, p).fields[k]
    ensures Put(n, p + [k], x) == Put(n, p, At(n, p).(fields := At(n, p).fields[k := x]))
    decreases |p|
  {
    if p == [] {
      assert (p + [k])[1..] == [];
    } else {
      assert (p + [k])[1..] == p[1..] + [k];
      PutChild(n.fields[p[0]], p[1..], k, x);
    }
  }

  lemma {:induction false} ChildrenApart(p: Path, k: string, l: string)
    requires k != l
    ensures Apart(p + [k], p + [l])
    decreases |p|
  {
    if p != [] {
      assert (p + [k])[1..] == p[1..] + [k] && (p + [l])[1..] == p[1..] + [l];
      ChildrenApart(p[1..], k, l);
    }
  }

  lemma {:induction false} ChildApart(p: Path, q: Path, k: string)
    requires Apart(p, q)
    ensures Apart(p + [k], q)
    decreases |p|
  {
    if p[0] == q[0] {
      assert (p + [k])[1..] == p[1..] + [k];
      ChildApart(p[1..], q[1..], k);
    }
  }
}

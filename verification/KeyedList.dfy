/** Lists of YAML nodes whose elements are told apart by a key: the text of one of their fields, or their own
    text.  A missing or non-scalar key makes yaml-cpp throw. */
module KeyedList {
  import opened Wrappers
  import opened Sequences
  import opened Yaml

  datatype Failure =
    | BadKey                 // a key is missing or not a scalar
    | NotASequence           // assert(res.IsSequence())
    | Panic(reason: string)

  function KeyOf(n: Node, id: string): Option<string> {
    if id == "" then (if n.Scalar? then Some(n.text) else None)
    else if n.Map? && id in n.fields && n.fields[id].Scalar? then Some(n.fields[id].text)
    else None
  }

  predicate AllKeyed(items: seq<Node>, id: string) {
    forall i | 0 <= i < |items| :: KeyOf(items[i], id).Some?
  }

  function Keys(items: seq<Node>, id: string): (ks: seq<string>)
    requires AllKeyed(items, id)
    ensures |ks| == |items|
    ensures forall i | 0 <= i < |items| :: KeyOf(items[i], id) == Some(ks[i])
  {
    seq(|items|, i requires 0 <= i < |items| => KeyOf(items[i], id).value)
  }

  /** The index of the first element with that key, or the length; fails at the first bad key before it. */
  function Find(items: seq<Node>, id: string, key: string): (r: Result<nat, Failure>)
    ensures r.Ok? ==> r.value <= |items|
    ensures r.Ok? ==> forall i | 0 <= i < r.value :: KeyOf(items[i], id).Some? && KeyOf(items[i], id).value != key
    ensures r.Ok? && r.value < |items| ==> KeyOf(items[r.value], id) == Some(key)
    ensures r.Err? ==> r.error == BadKey && !AllKeyed(items, id)
  {
    if items == [] then Ok(0)
    else if KeyOf(items[0], id).None? then Err(BadKey)
    else if KeyOf(items[0], id).value == key then Ok(0)
    else
      var rest := Find(items[1..], id, key);
      if rest.Ok? then Ok(rest.value + 1) else rest
  }

  /** The first element with that key. */
  ghost function Lookup(items: seq<Node>, id: string, key: string): Option<Node> {
    if items == [] then None
    else if KeyOf(items[0], id) == Some(key) then Some(items[0])
    else Lookup(items[1..], id, key)
  }

  /** `s` with `x` appended, after the first i elements have gone to the back. */
  ghost function Rotated(s: seq<Node>, x: Node, i: nat): seq<Node>
    requires i <= |s|
  {
    s[i..] + [x] + s[..i]
  }

  lemma TurnRotates(s: seq<Node>, x: Node, i: nat)
    requires i < |s|
    ensures var t := Rotated(s, x, i); t[..0] + t[1..] + [t[0]] == Rotated(s, x, i + 1)
  {
    var t := Rotated(s, x, i);
    assert t[1..] == s[i + 1..] + [x] + s[..i];
    assert s[..i + 1] == s[..i] + [s[i]];
  }

  /** A list node of the document, edited in place. */
  class ListNode {
    var items: seq<Node>

    constructor (items: seq<Node>)
      ensures this.items == items
    {
      this.items := items;
    }

    method PushBack(x: Node)
      modifies this
      ensures items == old(items) + [x]
    {
      items := items + [x];
    }

    method Remove(i: nat)
      requires i < |items|
      modifies this
      ensures items == Without(old(items), i)
    {
      items := items[..i] + items[i + 1..];
    }

    /** Appends the element and then moves all others, one by one, from the front to the back. */
    method PushFront(x: Node)
      modifies this
      ensures items == [x] + old(items)
    {
      PushBack(x);
      var i, n := 0, |items| - 1;
      while i < n
        invariant 0 <= i <= n == |old(items)|
        invariant items == Rotated(old(items), x, i)
      {
        TurnRotates(old(items), x, i);
        var front := items[0];
        Remove(0);
        PushBack(front);
        i := i + 1;
      }
    }

    /** The search loop of the list algorithms. */
    method FindKey(id: string, key: string) returns (r: Result<nat, Failure>)
      ensures r == Find(items, id, key)
    {
      var i := 0;
      while i < |items|
        invariant i <= |items|
        invariant forall j | 0 <= j < i :: KeyOf(items[j], id).Some? && KeyOf(items[j], id).value != key
      {
        var k := KeyOf(items[i], id);
        if k.None? {
          FindUnique(items, id, key, i);
          return Err(BadKey);
        }
        if k.value == key {
          FindUnique(items, id, key, i);
          return Ok(i);
        }
        i := i + 1;
      }
      FindUnique(items, id, key, i);
      return Ok(|items|);
    }
  }

  lemma {:induction false} FindUnique(items: seq<Node>, id: string, key: string, i: nat)
    requires i <= |items|
    requires forall j | 0 <= j < i :: KeyOf(items[j], id).Some? && KeyOf(items[j], id).value != key
    requires i < |items| ==> KeyOf(items[i], id).None? || KeyOf(items[i], id).value == key
    ensures Find(items, id, key) == if i < |items| && KeyOf(items[i], id).None? then Err(BadKey) else Ok(i)
    decreases i
  {
    if i > 0 {
      FindUnique(items[1..], id, key, i - 1);
    }
  }

  lemma {:induction false} LookupFinds(items: seq<Node>, id: string, key: string)
    requires Find(items, id, key).Ok?
    ensures Lookup(items, id, key) ==
            if Find(items, id, key).value < |items| then Some(items[Find(items, id, key).value]) else None
  {
    if items != [] && KeyOf(items[0], id) != Some(key) {
      LookupFinds(items[1..], id, key);
    }
  }
}

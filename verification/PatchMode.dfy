/** `Processor::AnalyzePatchMode`: from the tag of a patch item to the set of modes it asks for. */
module PatchMode {
  import opened Wrappers
  import opened Sequences
  import opened Yaml
  import opened SplitTrim
  import opened KeyedList

  datatype Mode =
    | Override
    | OverrideFront
    | OverrideBack
    | Skip
    | NewFront
    | NewBack
    | NewNever
    | Delete
    | Explicit
    | MergeMode

  const TAG_PREFIX := "tag:yaml.org,2002:"

  /** What follows the prefix of YAML's own tags; nothing for any other tag. */
  function CustomTag(n: Node): string {
    if n.Undefined? || !(TAG_PREFIX <= n.tag) then "" else n.tag[|TAG_PREFIX|..]
  }

  function AddNew(modes: set<Mode>, option: string): Result<set<Mode>, Failure> {
    if NewFront in modes || NewBack in modes || NewNever in modes then Err(Panic("multiple define"))
    else if option == "" || option == ".front" then Ok(modes + {NewFront})
    else if option == ".back" then Ok(modes + {NewBack})
    else if option == ".never" then Ok(modes + {NewNever})
    else Err(Panic("unsupported"))
  }

  function AddOverride(modes: set<Mode>, option: string): Result<set<Mode>, Failure> {
    if Override in modes || OverrideFront in modes || OverrideBack in modes then Err(Panic("multiple define"))
    else if option == "" then Ok(modes + {Override})
    else if option == ".front" then Ok(modes + {OverrideFront})
    else if option == ".back" then Ok(modes + {OverrideBack})
    else Err(Panic("unsupported"))
  }

  function AddOnce(modes: set<Mode>, mode: Mode): Result<set<Mode>, Failure> {
    if mode in modes then Err(Panic("multiple define")) else Ok(modes + {mode})
  }

  function AddWord(modes: set<Mode>, word: string): Result<set<Mode>, Failure> {
    if word == "delete" then AddOnce(modes, Delete)
    else if word == "skip" then AddOnce(modes, Skip)
    else if "new" <= word then AddNew(modes, word[3..])
    else if "override" <= word then AddOverride(modes, word[8..])
    else if "merge" <= word then AddOnce(modes, MergeMode)
    else Err(Panic("unsupported"))
  }

  function AddWords(modes: set<Mode>, words: seq<string>): Result<set<Mode>, Failure>
    decreases |words|
  {
    if words == [] then Ok(modes)
    else match AddWord(modes, words[0])
      case Err(error) => Err(error)
      case Ok(modes') => AddWords(modes', words[1..])
  }

  /** A lone new.never also overrides; delete, override and skip exclude each other. */
  function Finish(modes: set<Mode>): Result<set<Mode>, Failure> {
    var modes' := if modes == {NewNever} then modes + {Override} else modes;
    if |modes' * {Delete, Override, Skip}| > 1 then Err(Panic("cannot be used together")) else Ok(modes' + {Explicit})
  }

  function ModesOfWords(words: seq<string>): Result<set<Mode>, Failure> {
    match AddWords({}, words)
    case Err(error) => Err(error)
    case Ok(modes) => Finish(modes)
  }

  function ModesOf(n: Node): Result<set<Mode>, Failure> {
    if CustomTag(n) == "" then Ok({Override}) else ModesOfWords(Words(CustomTag(n), '+'))
  }

  /** The loop over the words. */
  method AnalyzePatchMode(n: Node) returns (r: Result<set<Mode>, Failure>)
    ensures r == ModesOf(n)
  {
    var tag := CustomTag(n);
    if tag == "" {
      return Ok({Override});
    }
    var words := SplitAndTrim(tag, '+');
    var modes: set<Mode> := {};
    var i := 0;
    while i < |words|
      invariant i <= |words|
      invariant AddWords({}, words) == AddWords(modes, words[i..])
    {
      assert words[i..][1..] == words[i + 1..];
      var added := AddWord(modes, words[i]);
      if added.Err? {
        return Err(added.error);
      }
      modes := added.value;
      i := i + 1;
    }
    r := Finish(modes);
  }

  // ---------- what the words mean, whatever their order ----------

  datatype Group = Deletes | Skips | News | Overrides | Merges

  /** The mode a word stands for, if it is supported. */
  function ModeOfWord(word: string): Option<Mode> {
    if word == "delete" then Some(Delete)
    else if word == "skip" then Some(Skip)
    else if word == "new" || word == "new.front" then Some(NewFront)
    else if word == "new.back" then Some(NewBack)
    else if word == "new.never" then Some(NewNever)
    else if word == "override" then Some(Override)
    else if word == "override.front" then Some(OverrideFront)
    else if word == "override.back" then Some(OverrideBack)
    else if "merge" <= word then Some(MergeMode)
    else None
  }

  function GroupOf(m: Mode): Group {
    match m
    case Delete => Deletes
    case Skip => Skips
    case NewFront => News
    case NewBack => News
    case NewNever => News
    case MergeMode => Merges
    case _ => Overrides
  }

  predicate Supported(words: seq<string>) {
    forall i | 0 <= i < |words| :: ModeOfWord(words[i]).Some?
  }

  function Groups(words: seq<string>): (gs: seq<Group>)
    requires Supported(words)
    ensures |gs| == |words|
  {
    seq(|words|, i requires 0 <= i < |words| => GroupOf(ModeOfWord(words[i]).value))
  }

  ghost function GroupsOf(modes: set<Mode>): set<Group> {
    set m | m in modes :: GroupOf(m)
  }

  lemma Prefixed(word: string, prefix: string, rest: string)
    ensures word == prefix + rest <==> prefix <= word && word[|prefix|..] == rest
  {
    if prefix <= word {
      assert word == prefix + word[|prefix|..];
    }
  }

  lemma NewWords(word: string)
    ensures word in {"new", "new.front"} <==> "new" <= word && word[3..] in {"", ".front"}
    ensures word == "new.back" <==> "new" <= word && word[3..] == ".back"
    ensures word == "new.never" <==> "new" <= word && word[3..] == ".never"
  {
    Prefixed(word, "new", "");
    Prefixed(word, "new", ".front");
    Prefixed(word, "new", ".back");
    Prefixed(word, "new", ".never");
    assert "new" + "" == "new" && "new" + ".front" == "new.front";
    assert "new" + ".back" == "new.back" && "new" + ".never" == "new.never";
  }

  lemma OverrideWords(word: string)
    ensures word == "override" <==> "override" <= word && word[8..] == ""
    ensures word == "override.front" <==> "override" <= word && word[8..] == ".front"
    ensures word == "override.back" <==> "override" <= word && word[8..] == ".back"
  {
    Prefixed(word, "override", "");
    Prefixed(word, "override", ".front");
    Prefixed(word, "override", ".back");
    assert "override" + "" == "override" && "override" + ".front" == "override.front";
    assert "override" + ".back" == "override.back";
  }

  /** Telling the words apart by their first letter. */
  lemma Initials(word: string)
    ensures word == "delete" ==> word[0] == 'd'
    ensures word == "skip" ==> word[0] == 's'
    ensures "new" <= word ==> word[0] == 'n'
    ensures "override" <= word ==> word[0] == 'o'
    ensures "merge" <= word ==> word[0] == 'm'
  {
  }

  lemma AddWordMeaning(modes: set<Mode>, word: string)
    requires Explicit !in modes
    ensures AddWord(modes, word).Ok? <==> ModeOfWord(word).Some? && GroupOf(ModeOfWord(word).value) !in GroupsOf(modes)
    ensures AddWord(modes, word).Ok? ==> AddWord(modes, word).value == modes + {ModeOfWord(word).value}
    ensures AddWord(modes, word).Err? ==> AddWord(modes, word).error.Panic?
  {
    Initials(word);
    NewWords(word);
    OverrideWords(word);
  }

  function ModeSet(words: seq<string>): set<Mode> {
    set w | w in words && ModeOfWord(w).Some? :: ModeOfWord(w).value
  }

  /** The words are accepted exactly if each is supported and no two are of the same group, nor of a group
      that is already present; the modes they add do not depend on their order. */
  lemma {:induction false} AddWordsMeaning(modes: set<Mode>, words: seq<string>)
    requires Explicit !in modes
    ensures AddWords(modes, words).Ok? <==>
              && Supported(words) && Distinct(Groups(words))
              && forall g | g in Groups(words) :: g !in GroupsOf(modes)
    ensures AddWords(modes, words).Ok? ==> AddWords(modes, words).value == modes + ModeSet(words)
    decreases |words|
  {
    if words != [] {
      AddWordMeaning(modes, words[0]);
      assert words == [words[0]] + words[1..];
      assert Supported(words) <==> ModeOfWord(words[0]).Some? && Supported(words[1..]);
      var added := AddWord(modes, words[0]);
      if added.Ok? {
        var m := ModeOfWord(words[0]).value;
        AddWordsMeaning(modes + {m}, words[1..]);
        assert GroupsOf(modes + {m}) == GroupsOf(modes) + {GroupOf(m)};
        assert ModeSet(words) == {m} + ModeSet(words[1..]);
        if Supported(words) {
          GroupsTail(words);
        }
      } else if Supported(words) {
        assert Groups(words)[0] in GroupsOf(modes);
      }
    }
  }

  lemma GroupsTail(words: seq<string>)
    requires words != [] && Supported(words)
    ensures Supported(words[1..]) && Groups(words) == [GroupOf(ModeOfWord(words[0]).value)] + Groups(words[1..])
    ensures Distinct(Groups(words)) <==> Groups(words)[0] !in Groups(words[1..]) && Distinct(Groups(words[1..]))
  {
    var g, gs := Groups(words)[0], Groups(words[1..]);
    assert Groups(words) == [g] + gs;
    if Distinct(Groups(words)) {
      DistinctTail(g, gs);
    }
  }

  predicate Conflict(modes: set<Mode>) {
    |modes * {Delete, Override, Skip}| > 1
  }

  /** The modes that a set of asked-for modes turns into. */
  ghost function Completed(asked: set<Mode>): set<Mode> {
    asked + (if asked == {NewNever} then {Override} else {}) + {Explicit}
  }

  /** Exactly which lists of words are accepted, and what they mean. */
  lemma WordsMeaning(words: seq<string>)
    ensures ModesOfWords(words).Ok? <==> Supported(words) && Distinct(Groups(words)) && !Conflict(ModeSet(words))
    ensures ModesOfWords(words).Ok? ==> ModesOfWords(words).value == Completed(ModeSet(words))
  {
    AddWordsMeaning({}, words);
    assert {} + ModeSet(words) == ModeSet(words);
    assert ({NewNever} + {Override}) * {Delete, Override, Skip} == {Override};
    assert {NewNever} * {Delete, Override, Skip} == {};
  }

  /** The order of the words is irrelevant. */
  lemma OrderIsIrrelevant(a: seq<string>, b: seq<string>)
    requires multiset(a) == multiset(b)
    ensures ModesOfWords(a).Ok? <==> ModesOfWords(b).Ok?
    ensures ModesOfWords(a).Ok? ==> ModesOfWords(a) == ModesOfWords(b)
  {
    assert forall w :: w in a <==> w in multiset(a);
    assert forall w :: w in b <==> w in multiset(b);
    WordsMeaning(a);
    WordsMeaning(b);
    assert ModeSet(a) == ModeSet(b);
    SupportedBySet(a);
    SupportedBySet(b);
    if Supported(a) {
      assert |a| == |multiset(a)| == |b|;
      DistinctBySize(Groups(a));
      DistinctBySize(Groups(b));
      GroupsBySet(a);
      GroupsBySet(b);
    }
  }

  lemma SupportedBySet(words: seq<string>)
    ensures Supported(words) <==> forall w | w in words :: ModeOfWord(w).Some?
  {
  }

  lemma GroupsBySet(words: seq<string>)
    requires Supported(words)
    ensures (set g | g in Groups(words)) == set m | m in ModeSet(words) :: GroupOf(m)
  {
    forall g | g in Groups(words) ensures exists m :: m in ModeSet(words) && GroupOf(m) == g {
      var i :| 0 <= i < |words| && Groups(words)[i] == g;
      assert words[i] in words;
      assert ModeOfWord(words[i]).value in ModeSet(words);
    }
    forall m | m in ModeSet(words) ensures GroupOf(m) in Groups(words) {
      var w :| w in words && ModeOfWord(w) == Some(m);
      var i :| 0 <= i < |words| && words[i] == w;
      assert Groups(words)[i] == GroupOf(m);
    }
  }

  /** What every accepted item satisfies, tagged or not. */
  ghost predicate WellFormedModes(modes: set<Mode>) {
    && |modes * {NewFront, NewBack, NewNever}| <= 1
    && |modes * {Override, OverrideFront, OverrideBack}| <= 1
    && |modes * {Delete, Override, Skip}| <= 1
  }

  lemma AtMostOne(modes: set<Mode>, choices: set<Mode>)
    requires forall x, y | x in modes * choices && y in modes * choices :: x == y
    ensures |modes * choices| <= 1
  {
    if modes * choices != {} {
      var x :| x in modes * choices;
      assert modes * choices == {x};
    }
  }

  lemma OnePerGroup(words: seq<string>, x: Mode, y: Mode)
    requires Supported(words) && Distinct(Groups(words)) && x in ModeSet(words) && y in ModeSet(words)
    requires GroupOf(x) == GroupOf(y)
    ensures x == y
  {
    var v :| v in words && ModeOfWord(v) == Some(x);
    var w :| w in words && ModeOfWord(w) == Some(y);
    var i :| 0 <= i < |words| && words[i] == v;
    var j :| 0 <= j < |words| && words[j] == w;
    assert Groups(words)[i] == GroupOf(x) && Groups(words)[j] == GroupOf(y);
  }

  lemma OneNewMode(asked: set<Mode>)
    requires forall x, y | x in asked && y in asked && GroupOf(x) == GroupOf(y) :: x == y
    ensures |Completed(asked) * {NewFront, NewBack, NewNever}| <= 1
  {
    var choices := {NewFront, NewBack, NewNever};
    forall x, y | x in asked * choices && y in asked * choices ensures x == y {
      assert GroupOf(x) == News == GroupOf(y);
    }
    AtMostOne(asked, choices);
    assert Completed(asked) * choices == asked * choices by {
      hide GroupOf;
    }
  }

  lemma OneOverrideMode(asked: set<Mode>)
    requires forall x, y | x in asked && y in asked && GroupOf(x) == GroupOf(y) :: x == y
    ensures |Completed(asked) * {Override, OverrideFront, OverrideBack}| <= 1
  {
    if asked == {NewNever} {
      assert Completed(asked) * {Override, OverrideFront, OverrideBack} == {Override};
    } else {
      AtMostOne(asked, {Override, OverrideFront, OverrideBack});
      assert Completed(asked) * {Override, OverrideFront, OverrideBack} ==
          asked * {Override, OverrideFront, OverrideBack};
    }
  }

  lemma NoConflict(asked: set<Mode>)
    requires !Conflict(asked)
    ensures |Completed(asked) * {Delete, Override, Skip}| <= 1
  {
    if asked == {NewNever} {
      assert Completed(asked) * {Delete, Override, Skip} == {Override};
    } else {
      assert Completed(asked) * {Delete, Override, Skip} == asked * {Delete, Override, Skip};
    }
  }

  lemma WordModesWellFormed(words: seq<string>)
    requires ModesOfWords(words).Ok?
    ensures WellFormedModes(ModesOfWords(words).value)
  {
    hide ModesOfWords; hide ModeSet; hide Supported; hide Distinct; hide GroupOf; hide Groups; hide Conflict;
    WordsMeaning(words);
    var asked := ModeSet(words);
    forall x, y | x in asked && y in asked && GroupOf(x) == GroupOf(y) ensures x == y {
      OnePerGroup(words, x, y);
    }
    OneNewMode(asked);
    OneOverrideMode(asked);
    NoConflict(asked);
  }

  /** At most one new mode, at most one override mode, never two of delete, override and skip. */
  lemma ModesAreWellFormed(n: Node)
    requires ModesOf(n).Ok?
    ensures WellFormedModes(ModesOf(n).value)
  {
    if CustomTag(n) == "" {
      assert {Override} * {NewFront, NewBack, NewNever} == {};
      assert {Override} * {Override, OverrideFront, OverrideBack} == {Override} ==
          {Override} * {Delete, Override, Skip};
    } else {
      WordModesWellFormed(Words(CustomTag(n), '+'));
    }
  }

  /** A tag written as clean words joined by plus signs means what the words mean, in whatever order. */
  lemma TagMeansItsWords(n: Node, words: seq<string>, order: seq<string>)
    requires !n.Undefined? && n.tag == TAG_PREFIX + Join(words, '+')
    requires words != [] && (forall w | w in words :: Clean(w, '+')) && multiset(words) == multiset(order)
    ensures ModesOf(n).Ok? <==> ModesOfWords(order).Ok?
    ensures ModesOf(n).Ok? ==> ModesOf(n) == ModesOfWords(order)
  {
    assert CustomTag(n) == Join(words, '+');
    assert Clean(words[0], '+');
    CleanWordsComeBack(words, '+');
    OrderIsIrrelevant(words, order);
  }

  // ---------- tags of one and of two words ----------

  lemma OneWordModes(v: string, m: Mode)
    requires ModeOfWord(v) == Some(m) && m != NewNever
    ensures ModesOfWords([v]) == Ok({m, Explicit})
  {
    hide ModeOfWord; hide ModesOfWords; hide Conflict;
    var words := [v];
    assert ModeSet(words) == {m} by {
      assert words[0] in words;
    }
    OneFits(m);
    WordsMeaning(words);
    assert Completed({m}) == {m, Explicit};
  }

  lemma OneFits(m: Mode)
    ensures !Conflict({m})
  {
    AtMostOne({m}, {Delete, Override, Skip});
  }

  lemma TwoWordModes(v: string, w: string, m: Mode, n: Mode)
    requires ModeOfWord(v) == Some(m) && ModeOfWord(w) == Some(n) && GroupOf(m) != GroupOf(n) && !Conflict({m, n})
    ensures ModesOfWords([v, w]) == Ok({m, n, Explicit})
  {
    hide ModeOfWord; hide ModesOfWords; hide Conflict; hide Distinct;
    var words := [v, w];
    assert ModeSet(words) == {m, n} by {
      assert words[0] in words && words[1] in words;
      assert forall x | x in words :: x == v || x == w;
    }
    assert Supported(words) && Groups(words) == [GroupOf(m), GroupOf(n)];
    TwoAreDistinct(GroupOf(m), GroupOf(n));
    hide Supported; hide Groups; hide ModeSet; hide GroupOf;
    WordsMeaning(words);
    TwoComplete(m, n);
  }

  lemma TwoAreDistinct(g: Group, h: Group)
    requires g != h
    ensures Distinct([g, h])
  {
  }

  lemma TwoComplete(m: Mode, n: Mode)
    requires GroupOf(m) != GroupOf(n)
    ensures Completed({m, n}) == {m, n, Explicit}
  {
    assert m in {m, n} && n in {m, n} && m != n;
    assert {m, n} != {NewNever};
  }

  lemma JoinFew(v: string, w: string)
    ensures Join([v], '+') == v && Join([v, w], '+') == v + ("+" + w)
  {
    assert [v, w][1..] == [w];
    assert Join([w], '+') == w;
    Assoc(v, "+", w);
  }

  /** What a tag of a single word means. */
  lemma OneWord(e: Node, v: string, m: Mode)
    requires !e.Undefined? && e.tag == TAG_PREFIX + v
    requires Clean(v, '+') && ModeOfWord(v) == Some(m) && m != NewNever
    ensures ModesOf(e) == Ok({m, Explicit})
  {
    hide ModeOfWord; hide ModesOf; hide ModesOfWords; hide Clean; hide Join;
    JoinFew(v, v);
    OneWordModes(v, m);
    TagMeansItsWords(e, [v], [v]);
  }

  /** What a tag of two words means. */
  lemma TwoWords(e: Node, v: string, w: string, m: Mode, n: Mode)
    requires !e.Undefined? && e.tag == TAG_PREFIX + (v + ("+" + w))
    requires Clean(v, '+') && ModeOfWord(v) == Some(m) && Clean(w, '+') && ModeOfWord(w) == Some(n)
    requires GroupOf(m) != GroupOf(n) && !Conflict({m, n})
    ensures ModesOf(e) == Ok({m, n, Explicit})
  {
    hide ModeOfWord; hide ModesOf; hide ModesOfWords; hide Clean; hide Join; hide Conflict; hide GroupOf;
    JoinFew(v, w);
    TwoWordModes(v, w, m, n);
    TagMeansItsWords(e, [v, w], [v, w]);
  }
}

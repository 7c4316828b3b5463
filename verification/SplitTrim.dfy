/** `utils::SplitTrim`: the pieces of a text between separators, trimmed, without the blank ones. */
module SplitTrim {

  const BLANKS := " \t\n\U{0B}\U{0C}\r"

  predicate Blank(c: char) {
    c in BLANKS
  }

  // ---------- what it computes ----------

  function TrimLeft(s: string): string {
    if s != "" && Blank(s[0]) then TrimLeft(s[1..]) else s
  }

  function TrimRight(s: string): string {
    if s != "" && Blank(s[|s| - 1]) then TrimRight(s[..|s| - 1]) else s
  }

  function Trim(s: string): string {
    TrimRight(TrimLeft(s))
  }

  /** The length of the text before the first separator. */
  function FirstPiece(s: string, separator: char): (n: nat)
    ensures n <= |s| && separator !in s[..n]
    ensures n < |s| ==> s[n] == separator
  {
    if s == "" || s[0] == separator then 0 else 1 + FirstPiece(s[1..], separator)
  }

  function Words(s: string, separator: char): seq<string>
    decreases |s|
  {
    var n := FirstPiece(s, separator);
    var word := Trim(s[..n]);
    (if word == "" then [] else [word]) + (if n < |s| then Words(s[n + 1..], separator) else [])
  }

  function Join(ws: seq<string>, separator: char): string {
    if ws == [] then "" else if |ws| == 1 then ws[0] else ws[0] + [separator] + Join(ws[1..], separator)
  }

  // ---------- round trip ----------

  /** A word that survives: not empty, without the separator, and no blank at either end. */
  predicate Clean(w: string, separator: char) {
    w != "" && separator !in w && !Blank(w[0]) && !Blank(w[|w| - 1])
  }

  lemma {:induction false} TrimLeftIsSuffix(s: string)
    ensures |TrimLeft(s)| <= |s| && TrimLeft(s) == s[|s| - |TrimLeft(s)|..]
    ensures TrimLeft(s) != "" ==> !Blank(TrimLeft(s)[0])
  {
    if s != "" && Blank(s[0]) {
      TrimLeftIsSuffix(s[1..]);
    }
  }

  lemma {:induction false} TrimRightIsPrefix(s: string)
    ensures |TrimRight(s)| <= |s| && TrimRight(s) == s[..|TrimRight(s)|]
    ensures TrimRight(s) != "" ==> !Blank(TrimRight(s)[|TrimRight(s)| - 1])
  {
    if s != "" && Blank(s[|s| - 1]) {
      TrimRightIsPrefix(s[..|s| - 1]);
    }
  }

  lemma TrimIsClean(s: string, separator: char)
    requires separator !in s && Trim(s) != ""
    ensures Clean(Trim(s), separator)
  {
    TrimLeftIsSuffix(s);
    TrimRightIsPrefix(TrimLeft(s));
  }

  lemma {:induction false} WordsAreClean(s: string, separator: char)
    ensures forall w | w in Words(s, separator) :: Clean(w, separator)
    decreases |s|
  {
    var n := FirstPiece(s, separator);
    if Trim(s[..n]) != "" {
      TrimIsClean(s[..n], separator);
    }
    if n < |s| {
      WordsAreClean(s[n + 1..], separator);
    }
  }

  lemma {:induction false} FirstPieceOf(w: string, rest: string, separator: char)
    requires separator !in w && (rest == "" || rest[0] == separator)
    ensures FirstPiece(w + rest, separator) == |w|
    decreases |w|
  {
    if w == "" {
      assert w + rest == rest;
    } else {
      assert (w + rest)[1..] == w[1..] + rest;
      FirstPieceOf(w[1..], rest, separator);
    }
  }

  lemma {:induction false} CleanWordsComeBack(ws: seq<string>, separator: char)
    requires forall w | w in ws :: Clean(w, separator)
    ensures Words(Join(ws, separator), separator) == ws
    decreases |ws|
  {
    if ws != [] {
      var w, rest := ws[0], if |ws| == 1 then "" else [separator] + Join(ws[1..], separator);
      assert Join(ws, separator) == w + rest;
      assert Clean(ws[0], separator);
      FirstPieceOf(w, rest, separator);
      assert (w + rest)[..|w|] == w;
      if |ws| > 1 {
        assert (w + rest)[|w| + 1..] == Join(ws[1..], separator);
        CleanWordsComeBack(ws[1..], separator);
      }
    }
  }

  /** Joining and splitting gives the words back exactly when all of them are clean. */
  lemma RoundTrip(ws: seq<string>, separator: char)
    ensures Words(Join(ws, separator), separator) == ws <==> forall w | w in ws :: Clean(w, separator)
  {
    WordsAreClean(Join(ws, separator), separator);
    if forall w | w in ws :: Clean(w, separator) {
      CleanWordsComeBack(ws, separator);
    }
  }

  // ---------- pieces with blanks ----------

  predicate AllBlank(s: string) {
    forall i | 0 <= i < |s| :: Blank(s[i])
  }

  /** The piece is the word with blanks around it, or nothing but blanks. */
  ghost predicate Holds(piece: string, word: string) {
    if word == "" then AllBlank(piece)
    else
      && !Blank(word[0]) && !Blank(word[|word| - 1])
      && exists before, after :: AllBlank(before) && AllBlank(after) && piece == before + (word + after)
  }

  lemma {:induction false} TrimLeftOf(blanks: string, s: string)
    requires AllBlank(blanks) && (s == "" || !Blank(s[0]))
    ensures TrimLeft(blanks + s) == s
  {
    if blanks == "" {
      assert blanks + s == s;
    } else {
      assert (blanks + s)[1..] == blanks[1..] + s;
      TrimLeftOf(blanks[1..], s);
    }
  }

  lemma {:induction false} TrimRightOf(s: string, blanks: string)
    requires AllBlank(blanks) && (s == "" || !Blank(s[|s| - 1]))
    ensures TrimRight(s + blanks) == s
  {
    if blanks == "" {
      assert s + blanks == s;
    } else {
      assert (s + blanks)[..|s + blanks| - 1] == s + blanks[..|blanks| - 1];
      TrimRightOf(s, blanks[..|blanks| - 1]);
    }
  }

  lemma TrimWord(before: string, word: string, after: string)
    requires AllBlank(before) && AllBlank(after) && word != "" && !Blank(word[0]) && !Blank(word[|word| - 1])
    ensures Trim(before + (word + after)) == word
  {
    hide Blank; hide AllBlank; hide TrimLeft; hide TrimRight;
    assert (word + after)[0] == word[0];
    TrimLeftOf(before, word + after);
    TrimRightOf(word, after);
  }

  lemma TrimOf(piece: string, word: string)
    requires Holds(piece, word)
    ensures Trim(piece) == word
  {
    hide Blank; hide AllBlank; hide Trim;
    if word == "" {
      TrimBlanks(piece);
    } else {
      var before, after :| AllBlank(before) && AllBlank(after) && piece == before + (word + after);
      TrimWord(before, word, after);
    }
  }

  lemma TrimBlanks(piece: string)
    requires AllBlank(piece)
    ensures Trim(piece) == ""
  {
    assert piece + "" == piece;
    TrimLeftOf(piece, "");
  }

  function NotEmpty(words: seq<string>): seq<string> {
    if words == [] then [] else (if words[0] == "" then [] else [words[0]]) + NotEmpty(words[1..])
  }

  /** Whatever blanks surround the words between the separators, and however many pieces are blank: the words come out,
      in order. */
  lemma {:induction false} PiecesBecomeWords(pieces: seq<string>, words: seq<string>, separator: char)
    requires |pieces| == |words|
    requires forall i | 0 <= i < |pieces| :: separator !in pieces[i] && Holds(pieces[i], words[i])
    ensures Words(Join(pieces, separator), separator) == NotEmpty(words)
    decreases |pieces|
  {
    hide Holds; hide Trim;
    if pieces != [] {
      var p, rest := pieces[0], if |pieces| == 1 then "" else [separator] + Join(pieces[1..], separator);
      assert Join(pieces, separator) == p + rest;
      FirstPieceOf(p, rest, separator);
      TrimOf(p, words[0]);
      assert (p + rest)[..|p|] == p;
      if |pieces| > 1 {
        assert (p + rest)[|p| + 1..] == Join(pieces[1..], separator);
        PiecesBecomeWords(pieces[1..], words[1..], separator);
      } else {
        assert words[1..] == [];
      }
    } else {
      NothingLeft(separator);
    }
  }

  // ---------- the loop ----------

  /** `find_first_not_of`, `find_last_not_of` and `substr` on one piece. */
  method TrimPiece(item: string) returns (word: string)
    ensures word == Trim(item)
  {
    var start := 0;
    while start < |item| && Blank(item[start])
      invariant start <= |item| && TrimLeft(item) == TrimLeft(item[start..])
    {
      start := start + 1;
    }
    var end := |item|;
    assert item[start..end] == item[start..];
    while start < end && Blank(item[end - 1])
      invariant start <= end <= |item| && Trim(item) == TrimRight(item[start..end])
    {
      assert item[start..end][..end - start - 1] == item[start..end - 1];
      end := end - 1;
    }
    word := item[start..end];
  }

  /** `std::getline` reads up to the next separator. */
  method ReadPiece(s: string, separator: char, pos: nat) returns (end: nat)
    requires pos <= |s|
    ensures end == pos + FirstPiece(s[pos..], separator)
  {
    end := pos;
    while end < |s| && s[end] != separator
      invariant pos <= end <= |s|
      invariant FirstPiece(s[pos..], separator) == end - pos + FirstPiece(s[end..], separator)
    {
      end := end + 1;
    }
  }

  /** The words from `pos` on are the word of the next piece, if any, and the words after it. */
  lemma NextWord(s: string, separator: char, pos: nat, end: nat)
    requires pos <= |s| && end == pos + FirstPiece(s[pos..], separator)
    ensures var word := Trim(s[pos..end]);
            Words(s[pos..], separator) ==
            (if word == "" then [] else [word]) + Words(s[if end < |s| then end + 1 else end..], separator)
  {
    var tail := s[pos..];
    assert tail[..end - pos] == s[pos..end];
    if end < |s| {
      assert tail[end - pos + 1..] == s[end + 1..];
    } else {
      assert Words("", separator) == [];
    }
  }

  /** Pieces are read until nothing is left. */
  method SplitAndTrim(s: string, separator: char) returns (result: seq<string>)
    ensures result == Words(s, separator)
  {
    hide Words; hide Trim; hide FirstPiece;
    result := [];
    var pos := 0;
    assert s[0..] == s;
    while pos < |s|
      invariant pos <= |s|
      invariant result + Words(s[pos..], separator) == Words(s, separator)
    {
      var end := ReadPiece(s, separator, pos);
      NextWord(s, separator, pos, end);
      var word := TrimPiece(s[pos..end]);
      if word != "" {
        result := result + [word];
      }
      pos := if end < |s| then end + 1 else end;
    }
    assert s[pos..] == "" && result + [] == result;
    NothingLeft(separator);
  }

  lemma NothingLeft(separator: char)
    ensures Words("", separator) == []
  {
  }
}

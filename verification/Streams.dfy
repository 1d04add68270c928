/** Reading whitespace-separated words from a text, as the stream operators of the client library do. */
module Streams {
  /** std::isspace: tab, line feed, vertical tab, form feed, carriage return and the space. */
  predicate IsSpace(c: char) {
    c == ' ' || '\t' <= c <= '\r'
  }

  /** What separates words: tab, line feed, vertical tab, form feed, carriage return and space. */
  lemma SpacesAre(c: char)
    ensures IsSpace(c) <==> c as int in {9, 10, 11, 12, 13, 32}
  {
  }

  predicate NoSpaces(s: string) {
    forall i | 0 <= i < |s| :: !IsSpace(s[i])
  }

  function SkipSpaces(s: string): (r: string)
    ensures |r| <= |s|
    ensures r != "" ==> !IsSpace(r[0])
  {
    if s == "" || !IsSpace(s[0]) then s else SkipSpaces(s[1..])
  }

  function WordLength(s: string): (n: nat)
    ensures n <= |s|
  {
    if s == "" || IsSpace(s[0]) then 0 else 1 + WordLength(s[1..])
  }

  /** `stream >> word`: the word and the rest of the text. The word is empty at the end of the text. */
  function ReadWord(s: string): (r: (string, string))
    ensures r.0 != "" ==> |r.1| < |s|
  {
    var t := SkipSpaces(s);
    var n := WordLength(t);
    (t[..n], t[n..])
  }

  /** The text after a word goes on with a space, or ends. */
  predicate Separated(rest: string) {
    rest == "" || IsSpace(rest[0])
  }

  lemma {:induction false} WordLengthIs(word: string, rest: string)
    requires NoSpaces(word) && Separated(rest)
    ensures WordLength(word + rest) == |word|
  {
    if word == "" {
      assert word + rest == rest;
    } else {
      assert (word + rest)[1..] == word[1..] + rest;
      WordLengthIs(word[1..], rest);
    }
  }

  lemma {:induction false} SkipSpacesIs(spaces: string, rest: string)
    requires forall i | 0 <= i < |spaces| :: IsSpace(spaces[i])
    requires rest == "" || !IsSpace(rest[0])
    ensures SkipSpaces(spaces + rest) == rest
  {
    if spaces == "" {
      assert spaces + rest == rest;
    } else {
      assert (spaces + rest)[1..] == spaces[1..] + rest;
      SkipSpacesIs(spaces[1..], rest);
    }
  }

  /** A word comes back as it was written, whatever spaces there are before it. */
  lemma ReadWordIs(spaces: string, word: string, rest: string)
    requires forall i | 0 <= i < |spaces| :: IsSpace(spaces[i])
    requires word != "" && NoSpaces(word) && Separated(rest)
    ensures ReadWord(spaces + word + rest) == (word, rest)
  {
    assert spaces + word + rest == spaces + (word + rest);
    SkipSpacesIs(spaces, word + rest);
    WordLengthIs(word, rest);
    assert (word + rest)[..|word|] == word && (word + rest)[|word|..] == rest;
  }

  /** Lines, each with its line feed. */
  function Lines(lines: seq<string>): string {
    if lines == [] then "" else Lines(lines[..|lines| - 1]) + lines[|lines| - 1] + "\n"
  }

  lemma {:induction false} LinesFirst(lines: seq<string>)
    requires lines != []
    ensures Lines(lines) == lines[0] + "\n" + Lines(lines[1..])
  {
    var n := |lines| - 1;
    if n == 0 {
      assert Lines(lines) == Lines([]) + lines[0] + "\n";
    } else {
      var start, rest := lines[..n], lines[1..];
      LinesFirst(start);
      LinesLast(lines, start);
      assert start[1..] == rest[..n - 1];
      LinesLast(rest, start[1..]);
      Reordered(lines[0] + "\n", Lines(start[1..]), lines[n], "\n");
    }
  }

  lemma LinesLast(lines: seq<string>, start: seq<string>)
    requires lines != [] && start == lines[..|lines| - 1]
    ensures Lines(lines) == Lines(start) + lines[|lines| - 1] + "\n"
  {
  }

  lemma Reordered(a: string, b: string, c: string, d: string)
    ensures a + b + c + d == a + (b + c + d)
  {
  }
}

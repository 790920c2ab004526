/** Where the words come from: `text_generator` on literal text and the
    text branch of `_get_words`.  The source tells a path from literal
    text by asking the file system (`text_generator`) or by looking for a
    `'\n'` (`_get_words`); here the caller says which it is. */
module TextInput {
  import opened Strings
  import opened Tokenizer

  /** Literal text, or the whole content of a file as `file.read()`
      returns it. */
  datatype Source = LiteralText(text: string) | FileText(content: string)

  /** The lines `text_generator` yields for literal text: the stripped
      pieces of the text split on `'\n'`, or the stripped text. */
  function Lines(text: string): seq<string>
  {
    if '\n' in text then StripEach(Split(text, '\n')) else [Strip(text)]
  }

  /** Text without a `'\n'` yields exactly one line, the stripped text;
      otherwise there is one line per `'\n'`-separated piece, stripped,
      in order: one more line than there are `'\n'`.  No line holds a
      `'\n'`, and no line can be stripped further. */
  lemma LinesSpec(text: string)
    ensures '\n' !in text ==> Lines(text) == [Strip(text)]
    ensures |Lines(text)| == multiset(text)['\n'] + 1
    ensures forall k :: 0 <= k < |Lines(text)| ==> Lines(text)[k] == Strip(Split(text, '\n')[k])
    ensures forall k :: 0 <= k < |Lines(text)| ==> '\n' !in Lines(text)[k] && Strip(Lines(text)[k]) == Lines(text)[k]
  {
    var r := Lines(text);
    var pieces := Split(text, '\n');
    forall k | 0 <= k < |r| ensures '\n' !in r[k] && Strip(r[k]) == r[k] {
      StripIdempotent(pieces[k]);
      StripInside(pieces[k]);
    }
  }

  /** `text_generator(text)` collected into a list: the lines of literal
      text, in order. */
  method TextGenerator(text: string) returns (lines: seq<string>)
    ensures lines == Lines(text)
  {
    if '\n' in text {
      lines := YieldStripped(Split(text, '\n'));
    } else {
      lines := [Strip(text)];
    }
  }

  /** `for line in pieces: yield line.strip()`, collected into a list:
      every piece stripped, in order. */
  method YieldStripped(pieces: seq<string>) returns (lines: seq<string>)
    ensures lines == StripEach(pieces)
  {
    ghost var all := StripEach(pieces);
    lines := [];
    for k := 0 to |pieces|
      invariant lines == all[..k]
    {
      var line := Strip(pieces[k]);
      assert line == all[k];
      assert all[..k + 1] == all[..k] + [line];
      lines := lines + [line];
    }
    assert all[..|pieces|] == all;
  }

  /** `_get_words`: a file's content is tokenised as read; literal text
      as its stripped lines joined with `' '`. */
  function GetWords(src: Source): seq<string>
  {
    match src
    case FileText(content) => Words(content)
    case LiteralText(text) => Words(Join(Lines(text), " "))
  }

  /** Splitting on `'\n'` and stripping each piece changes no word: the
      lines hold the words of the text, in order. */
  lemma LinesKeepWords(text: string)
    ensures WordsOfEach(Lines(text)) == Words(text)
  {
    var pieces := Split(text, '\n');
    assert Lines(text) == StripEach(pieces);
    WordsOfEachStrip(pieces);
    WordsJoin(pieces, "\n");
  }

  /** Joining the stripped lines with `' '` changes no word either: the
      words of literal text are those of each line in turn, and the same
      as the words of that text read whole from a file. */
  lemma LiteralTextWords(text: string)
    ensures GetWords(LiteralText(text)) == WordsOfEach(Lines(text))
    ensures GetWords(LiteralText(text)) == GetWords(FileText(text))
  {
    WordsJoin(Lines(text), " ");
    LinesKeepWords(text);
  }
}

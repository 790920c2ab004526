/** The toolkit's own way of telling a file path from literal text, with
    the file system as a parameter: `text_generator` asks whether the
    argument names an existing file, `_get_words` only whether it holds a
    `'\n'`.  The rest of the model takes a `Source` that says which it is;
    this module relates the two. */
module PathOrText {
  import opened Outcomes
  import opened Chars
  import opened Strings
  import opened Files
  import opened Tokenizer
  import opened TextInput

  /** What `open(path)` raises for a path that names no readable file. */
  datatype OpenError = FileNotFound(path: string)

  /** `text_generator(arg)` as written: an argument naming an existing
      file yields that file's lines, stripped; any other string is
      literal text. */
  function TextGeneratorAsWritten(arg: string, fs: FileSystem): seq<string>
  {
    if arg in fs then StripEach(FileLines(fs[arg])) else Lines(arg)
  }

  /** `_get_words(arg)` as written: an argument without a `'\n'` is always
      opened as a file; one with a `'\n'` goes through `text_generator`. */
  function GetWordsAsWritten(arg: string, fs: FileSystem): (r: Result<seq<string>, OpenError>)
    ensures r.Err? <==> '\n' !in arg && arg !in fs
    ensures r.Err? ==> r.error == FileNotFound(arg)
  {
    if '\n' !in arg then
      if arg in fs then Ok(Words(fs[arg])) else Err(FileNotFound(arg))
    else Ok(Words(Join(TextGeneratorAsWritten(arg, fs), " ")))
  }

  /** Lines that each end in `'\n'` (all but the last) tokenise one by one:
      no word runs across a line end. */
  lemma {:induction false} WordsOfLines(r: seq<string>)
    requires Terminated(r)
    ensures Words(Concat(r)) == WordsOfEach(r)
    decreases |r|
  {
    if r == [] {
      WordsWithoutWordChars([]);
    } else {
      var rest := r[1..];
      forall k | 0 <= k < |rest| ensures IsLine(rest[k], k == |rest| - 1) {
        assert rest[k] == r[k + 1];
      }
      WordsOfLines(rest);
      if |r| > 1 {
        assert IsLine(r[0], false);
      }
      WordsAppend(r[0], Concat(rest));
    }
  }

  /** Reading a file whole, or line by line with each line stripped and the
      lines joined with `' '`, gives the same words. */
  lemma FileWordsAgree(content: string)
    ensures Words(Join(StripEach(FileLines(content)), " ")) == Words(content)
  {
    var lines := FileLines(content);
    FileLinesTerminated(content);
    WordsOfLines(lines);
    WordsJoin(StripEach(lines), " ");
    WordsOfEachStrip(lines);
  }

  /** How the path test of `_get_words` relates to an explicit source: an
      argument without a `'\n'` is the content of the file it names, or an
      error; an argument with one is literal text unless it names a file. */
  lemma GetWordsAsWrittenCases(arg: string, fs: FileSystem)
    ensures '\n' !in arg && arg !in fs ==> GetWordsAsWritten(arg, fs) == Err(FileNotFound(arg))
    ensures arg in fs ==> GetWordsAsWritten(arg, fs) == Ok(GetWords(FileText(fs[arg])))
    ensures '\n' in arg && arg !in fs ==> GetWordsAsWritten(arg, fs) == Ok(GetWords(LiteralText(arg)))
  {
    if arg in fs {
      FileWordsAgree(fs[arg]);
    }
  }

  /** The discrepancy: one-line literal text, even a single word such as
      "cat", is opened as a file, and unless a file of that name exists the
      call fails, although the text holds a word. */
  lemma OneLineTextIsOpened(text: string, fs: FileSystem)
    requires text != [] && forall q :: 0 <= q < |text| ==> IsWordChar(text[q])
    requires text !in fs
    ensures GetWordsAsWritten(text, fs) == Err(FileNotFound(text))
    ensures GetWords(LiteralText(text)) == [Lower(text)]
  {
    assert '\n' !in text by {
      assert forall q :: 0 <= q < |text| ==> text[q] != '\n';
    }
    LiteralTextWords(text);
    WordsOfWord(text);
  }
}

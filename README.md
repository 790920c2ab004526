# text_toolkit in Dafny

A model of `text_toolkit.py`, a small text-statistics library, with the
properties its functions promise proved about the model.

- **Tokeniser.** `_get_words` lowercases the text and returns the maximal
  runs of word characters (`re.findall(r'\b\w+\b', text.lower())`). Word
  characters are ASCII letters, digits and `_`.
- **Counting.** `word_frequency` builds a `Counter`, optionally keeping
  only the words a filter accepts. `unique_words` builds the set of words.
- **Co-occurrence.** `word_cooccurrence_matrix` counts ordered word pairs
  inside a forward window, with two nested loops over the word list.
- **Line splitting.** `text_generator` on literal text yields the stripped
  pieces of the text split on `'\n'`.
- **Chunking.** `process_large_file` reads a file `chunk_size` lines at a
  time and joins each group. `apply_to_large_file` applies a function to
  each chunk and collects the results in order.

Modules, leaf first:

- `Outcomes`: `Option` and `Result`.
- `Chars`: word characters, ASCII lowercasing, whitespace.
- `Strings`: `join`, `split`, `strip`.
- `Tally`: `dict.get(k, 0) + 1` and the sum of a dictionary's values.
- `Files`: a file's content, and the lines that iterating over the open file gives.
- `Tokenizer`: the regular-expression scan as spans of positions.
- `TextInput`: `text_generator` on literal text, and `_get_words`.
- `Frequency`: `word_frequency`, `unique_words`.
- `Cooccurrence`: `word_cooccurrence_matrix`.
- `Chunking`: `process_large_file`, `apply_to_large_file`.
- `PathOrText`: the library's path-or-text test, with the file system as a parameter.

The library tells a file path from literal text in two different ways.
`text_generator` asks the file system whether the string names an
existing file. `_get_words` opens every string without a `'\n'` as a file,
without asking. Most of the model instead takes an explicit
`Source = LiteralText(text) | FileText(content)`. `PathOrText` models the
test as written and relates it to `Source`.

Files are values. A file is its content (what `file.read()` returns). Its
lines are what iterating over it gives: each line keeps its `'\n'`, and
the last line may have none. A file system is a map from path to content.

The library's default arguments are kept as Dafny default parameters:
`window=2`, `filter_func=None` and `chunk_size=1000`.

Functions that the source runs as loops are methods with loop invariants:
`CountPairs`, `YieldStripped`, `ProcessLargeFile` and `ApplyToLargeFile`.
Each is proved equal to a pure specification function, and the
properties are proved about that function.

On these edge cases the model follows the code:

- The window of `word_cooccurrence_matrix` may be any integer. Every window
  of at most 1 gives the empty table.
- `chunk_size` may be 0, which gives no chunks. A negative `chunk_size`
  makes `islice` raise `ValueError`. CPython's `islice` converts its stop
  to a `Py_ssize_t` with clipping, so a `chunk_size` above `sys.maxsize`
  reads `sys.maxsize` lines at a time. The model takes the 64-bit
  `sys.maxsize`, `2**63 - 1`.
- Text on one line is opened as a path by `_get_words`; see "## Findings".

## Model

| member | source | states |
|---|---|---|
| Chars.Lower | text_toolkit.py:76 | `text.lower()` keeps the length, lowers each ASCII capital and leaves every other character; word characters stay word characters |
| Strings.Join | text_toolkit.py:74 | `sep.join(xs)`: the pieces in order with `sep` between each two; its round trip with `split` is proved by `Strings.Split` and `Strings.SplitJoin` |
| Strings.Concat | text_toolkit.py:89 | `''.join(xs)`: the pieces in order; that a file's lines concatenate back to its content is proved by `Files.FileLines` and `Chunking.ChunksReassemble` |
| Strings.Split | text_toolkit.py:59 | `s.split(sep)` has one piece more than `s` has separators; no piece holds the separator; joining the pieces with it gives `s` back |
| Strings.SplitJoin | text_toolkit.py:59 | splitting the join of separator-free pieces gives the pieces back |
| Strings.Strip | text_toolkit.py:60-62 | the stripped text neither starts nor ends with whitespace |
| Strings.StripParts | text_toolkit.py:60-62 | `strip` removes only whitespace, and only before and after what it keeps |
| Strings.StripIdempotent | text_toolkit.py:60-62 | stripping twice gives what stripping once gives |
| Files.FileLines | text_toolkit.py:84-86 | the lines of a file are non-empty and concatenate back to its content |
| Files.FileLinesTerminated | text_toolkit.py:84-86 | every line but the last ends with `'\n'`, and no line holds another `'\n'` |
| Tokenizer.Tokens | text_toolkit.py:76 | `re.findall(r'\b\w+\b', t)`: the text of each span the scan finds, in order; characterised by `Tokenizer.TokensAreWordStrings` and `Tokenizer.WordsAreMaximalRuns` |
| Tokenizer.Words | text_toolkit.py:76 | the tokens of `text.lower()`; characterised by `Tokenizer.WordsAreMaximalRuns` |
| Tokenizer.RunEnd | text_toolkit.py:76 | the greedy `\w+` from a position ends at the first non-word character or at the end of the text |
| Tokenizer.SpansAreMaximalRuns | text_toolkit.py:76 | the spans the scan finds are maximal runs of word characters, in text order with gaps between them, and cover every word character |
| Tokenizer.TokensAreWordStrings | text_toolkit.py:76 | each token is non-empty and made of word characters of the text |
| Tokenizer.WordsAreLowercaseWordStrings | text_toolkit.py:76 | each word is non-empty and made of lowercase word characters |
| Tokenizer.WordsAreMaximalRuns | text_toolkit.py:76 | the words of a text are its maximal runs of word characters, lowercased, in text order, and every word character of the text lies in one |
| Tokenizer.WordsOfWord | text_toolkit.py:76 | a text that is one run of word characters is one word, itself lowercased |
| Tokenizer.WordsAppend | text_toolkit.py:74-76 | when no word crosses the seam, the words of `a + b` are those of `a` then those of `b` |
| Tokenizer.WordsStrip | text_toolkit.py:74-76 | stripping a text changes none of its words |
| Tokenizer.WordsJoin | text_toolkit.py:74-76 | joining texts with a separator of non-word characters keeps the words of each text, in order |
| TextInput.Lines | text_toolkit.py:58-62 | the lines `text_generator` yields for literal text; their shape is proved by `TextInput.LinesSpec` |
| TextInput.GetWords | text_toolkit.py:66-76 | `_get_words` for an explicit source: a file's content tokenised whole, literal text as its stripped lines joined with `' '`; `TextInput.LiteralTextWords` proves both give the same words for the same text |
| TextInput.LinesSpec | text_toolkit.py:58-62 | text without `'\n'` yields one line, the stripped text; otherwise one stripped line per `'\n'`-separated piece, in order, one more than there are `'\n'` |
| TextInput.TextGenerator | text_toolkit.py:58-62 | the generator run on literal text yields exactly the lines of `Lines` |
| TextInput.YieldStripped | text_toolkit.py:59-60 | the loop yields every piece stripped, in order |
| TextInput.LinesKeepWords | text_toolkit.py:58-60 | the lines of a text hold the words of the text, in order |
| TextInput.LiteralTextWords | text_toolkit.py:73-76 | the words of literal text are those of its lines in turn, and the same as those of that text read whole from a file |
| Tally.Bump | text_toolkit.py:41 | `d[k] = d.get(k, 0) + 1` adds one to the count of `k`, adds `k` to the keys, and changes no other count |
| Tally.TotalBump | text_toolkit.py:41 | one update adds one to the sum of the counts |
| Frequency.Counts | text_toolkit.py:13 | `Counter(ws)` maps each word to its number of occurrences; exactly the words of `ws` are keys, each with a count of at least 1 |
| Frequency.CountsTotal | text_toolkit.py:13 | the counts of `Counter(ws)` add up to the length of `ws` |
| Frequency.Filtered | text_toolkit.py:16 | the comprehension keeps exactly the entries whose word passes the filter, with their counts |
| Frequency.WordFrequency | text_toolkit.py:12-17 | without a filter each word's count is its number of occurrences; with one, exactly the accepted words are keys, each with its unfiltered count |
| Frequency.WordFrequencyTotal | text_toolkit.py:12-17 | unfiltered counts add up to the number of words |
| Frequency.Distinct | text_toolkit.py:24 | `set(ws)` holds exactly the elements of `ws` |
| Frequency.UniqueWords | text_toolkit.py:23-24 | the unique words are exactly the words of the source, no others |
| Frequency.UniqueWordsAreFrequencyKeys | text_toolkit.py:12-24 | the unique words are exactly the keys of the unfiltered frequency table |
| Cooccurrence.CountPairs | text_toolkit.py:31-43 | the nested loops give each pair the number of positions `(i, j)`, `1 <= j < window`, `i + j < len(words)`, at which it occurs; every count is at least 1; a window of at most 1 gives the empty table; the counts add up to the number of positions |
| Cooccurrence.WordCooccurrenceMatrix | text_toolkit.py:26-43 | the same, for the words of a source |
| Cooccurrence.CountedStep | text_toolkit.py:36-41 | one pass of the inner loop keeps the loop invariant |
| Cooccurrence.PairCountWitness | text_toolkit.py:34-41 | a pair has a non-zero count exactly when some position `(i, j)` shows it |
| Cooccurrence.SmallWindowNoHits | text_toolkit.py:36 | `range(1, window)` is empty for `window <= 1`, so no pair is counted |
| Cooccurrence.RowPositionsCount | text_toolkit.py:36-37 | row `i` has `min(window - 1, len(words) - 1 - i)` positions, or none |
| Cooccurrence.AdjacentPositionCount | text_toolkit.py:26-37 | with the default window of 2, `n` words give `n - 1` positions |
| Cooccurrence.AlternatingPairs | text_toolkit.py:26-43 | for the words `a b a b` and window 2, `(a, b)` counts 2, `(b, a)` counts 1, and nothing else is counted |
| Chunking.Groups | text_toolkit.py:85-88 | the successive `list(islice(file, n))` reads up to the first empty one; their layout is proved by `Chunking.GroupsFlatten`, `Chunking.GroupsSizes` and `Chunking.GroupsLayout` |
| Chunking.ClipStop | text_toolkit.py:86 | the stop `islice` uses: the chunk size itself up to `sys.maxsize`, and `sys.maxsize` above it; never 0 for a positive size |
| Chunking.Chunks | text_toolkit.py:80-89 | what `process_large_file` yields: an error exactly when `chunk_size` is negative, otherwise each group of lines joined |
| Chunking.OversizeChunkSize | text_toolkit.py:86 | a chunk size above `sys.maxsize` reads as `sys.maxsize`, so a file of at most that many lines is one chunk, its whole content |
| Chunking.GroupsFlatten | text_toolkit.py:85-89 | with a positive chunk size the groups hold every line once, in order |
| Chunking.GroupsEmpty | text_toolkit.py:86-88 | there are no chunks exactly when there are no lines or the chunk size is 0 |
| Chunking.GroupsSizes | text_toolkit.py:86 | each group holds between 1 and `chunk_size` lines, and all but the last exactly `chunk_size` |
| Chunking.GroupsLayout | text_toolkit.py:85-89 | there are `len(lines) / chunk_size` groups rounded up, and group `k` holds lines `k * n` up to `(k + 1) * n`, cut at the end of the file |
| Chunking.ThousandLineChunks | text_toolkit.py:80-89 | 2500 lines read 1000 at a time give three chunks of 1000, 1000 and 500 lines |
| Chunking.ChunksReassemble | text_toolkit.py:84-89 | with a positive chunk size, the chunks joined in order are the content of the file |
| Chunking.ChunkStep | text_toolkit.py:86-89 | the rest of the file yields the chunk the next `islice` reads, then the chunks after it |
| Chunking.ProcessLargeFile | text_toolkit.py:80-89 | the `while True` loop yields exactly the chunks of `Chunks`, or the `ValueError` of a negative chunk size |
| Chunking.ApplyAll | text_toolkit.py:95-97 | `func` applied to each chunk in order, stopping at the first call that fails; characterised by `Chunking.ApplyAllOk` and `Chunking.ApplyAllErr` |
| Chunking.ApplyToChunks | text_toolkit.py:91-98 | what `apply_to_large_file` returns: the chunk-size error exactly when `chunk_size` is negative, otherwise the results of `ApplyAll` or its first failure |
| Chunking.ApplyAllOk | text_toolkit.py:95-98 | the calls succeed exactly when every chunk's call succeeds, and then there is one result per chunk, `func` of that chunk, in order |
| Chunking.ApplyAllErr | text_toolkit.py:95-98 | a failure is that of the first chunk whose call fails |
| Chunking.ApplyToLargeFile | text_toolkit.py:91-98 | the loop returns exactly what `ApplyToChunks` describes |
| Chunking.ApplyToChunksResults | text_toolkit.py:91-98 | `results[k] == func(chunk_k)` for every chunk when all calls succeed; otherwise the error of the first failing call |
| PathOrText.TextGeneratorAsWritten | text_toolkit.py:45-62 | `text_generator` as written: the stripped lines of the file the argument names, if it exists, otherwise the lines of the literal text |
| PathOrText.GetWordsAsWritten | text_toolkit.py:66-76 | `_get_words` as written: it fails exactly when the argument has no `'\n'` and names no file, and then with that path |
| PathOrText.WordsOfLines | text_toolkit.py:53-55 | lines that end in `'\n'` tokenise one by one: no word runs across a line end |
| PathOrText.FileWordsAgree | text_toolkit.py:53-55 | reading a file whole, or line by line stripped and joined with `' '`, gives the same words |
| PathOrText.GetWordsAsWrittenCases | text_toolkit.py:66-76 | an argument without `'\n'` that names no file fails; one that names a file gives that file's words; one with `'\n'` that names no file gives the words of the literal text |
| PathOrText.OneLineTextIsOpened | text_toolkit.py:70-72 | a one-word literal text that names no file makes `_get_words` fail, although its words are that one word |

## Left out

- File-system access (`open`, `file.read()`, iterating over a file): a file is its content, and its lines are computed from it.
- Universal-newline translation: a file's content is taken after Python has turned `'\r\n'` and `'\r'` into `'\n'`.
- Generator laziness and early termination, and the release of file handles by `with`: the generators are modelled by the complete list they yield.
- The `ValueError` that `text_generator` raises for a non-string argument: the types rule it out.
- Exceptions raised by `filter_func`: the filter is a total function. Exceptions raised by the function given to `apply_to_large_file` are modelled as an error result.
- Unicode: `\w` and `lower()` are modelled on ASCII only. `strip()` uses Python's whitespace set, written out.
- A `chunk_size` that is not an integer (`None` would read the whole file as one chunk; a float makes `islice` raise): the parameter is an `int`. `sys.maxsize` is that of a 64-bit build.
- The iteration order of `Counter` and of the dictionaries: tables are maps.
- `os.path.exists` also holds for directories, which `open` refuses: the file system holds readable files only.

## Findings

| source | as written | input that shows it | evidently intended | confidence | as-written member | corrected member |
|---|---|---|---|---|---|---|
| text_toolkit.py:70-72 | `_get_words` opens every string without `'\n'` as a file, so one-line literal text raises `FileNotFoundError` | `word_frequency("cat")` with no file named `cat` | literal text is tokenised whether or not it holds a `'\n'`, as the docstrings and `text_generator` (line 62) handle it | high (not executed) | PathOrText.OneLineTextIsOpened | TextInput.LiteralTextWords |

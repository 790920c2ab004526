/** A file as the toolkit reads it: its whole content, as `file.read()`
    returns it, and the lines that iterating over the open file gives.
    A directory of readable files is a map from path to content. */
module Files {
  import opened Strings

  /** The readable files: each path that exists, with its content. */
  type FileSystem = map<string, string>

  /** Iterating over a file opened for reading: each line runs up to and
      including its `'\n'`; the last one may have none. */
  function FileLines(content: string): (r: seq<string>)
    ensures Concat(r) == content
    ensures forall k :: 0 <= k < |r| ==> r[k] != []
    decreases |content|
  {
    if content == [] then []
    else if '\n' in content then
      var i := IndexOf(content, '\n');
      assert content == content[..i + 1] + content[i + 1..];
      [content[..i + 1]] + FileLines(content[i + 1..])
    else [content]
  }

  /** A line as iterating over a file gives it: non-empty, with a `'\n'`
      only as its last character, and ending with one unless it is the
      last line of the file. */
  predicate IsLine(line: string, last: bool) {
    && line != []
    && (forall q :: 0 <= q < |line| - 1 ==> line[q] != '\n')
    && (!last ==> line[|line| - 1] == '\n')
  }

  /** Every line is well formed. */
  predicate Terminated(r: seq<string>) {
    forall k :: 0 <= k < |r| ==> IsLine(r[k], k == |r| - 1)
  }

  /** The lines of a file are terminated. */
  lemma {:induction false} FileLinesTerminated(content: string)
    ensures Terminated(FileLines(content))
    decreases |content|
  {
    if content != [] && '\n' in content {
      var i := IndexOf(content, '\n');
      var first, rest := content[..i + 1], FileLines(content[i + 1..]);
      var r := FileLines(content);
      FileLinesTerminated(content[i + 1..]);
      assert r == [first] + rest;
      assert IsLine(first, false) by {
        assert forall q :: 0 <= q <= i ==> first[q] == content[q];
      }
      forall k | 0 <= k < |r| ensures IsLine(r[k], k == |r| - 1) {
        if k > 0 {
          assert r[k] == rest[k - 1];
        }
      }
    }
  }
}

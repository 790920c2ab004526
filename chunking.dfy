/** `process_large_file` and `apply_to_large_file`: a file is read as its
    lines, terminators kept, and handed out `chunk_size` lines at a time,
    each chunk joined back into one string. */
module Chunking {
  import opened Outcomes
  import opened Strings
  import opened Files

  function Min(a: int, b: int): int {
    if a <= b then a else b
  }

  /** The successive results of `list(islice(file, n))` up to the first
      empty one: `n` lines at a time, the last group holding the rest. */
  function Groups(lines: seq<string>, n: nat): seq<seq<string>>
    decreases |lines|
  {
    if lines == [] || n == 0 then []
    else if |lines| <= n then [lines]
    else [lines[..n]] + Groups(lines[n..], n)
  }

  /** The lines of a sequence of groups, in order. */
  function Flatten(g: seq<seq<string>>): seq<string>
    decreases |g|
  {
    if g == [] then [] else g[0] + Flatten(g[1..])
  }

  /** `''.join(chunk)` for each group. */
  function ConcatEach(g: seq<seq<string>>): (r: seq<string>)
    ensures |r| == |g|
    ensures forall k :: 0 <= k < |g| ==> r[k] == Concat(g[k])
  {
    seq(|g|, k requires 0 <= k < |g| => Concat(g[k]))
  }

  /** The chunks `process_large_file` yields for the given lines. */
  function ChunkTexts(lines: seq<string>, n: nat): seq<string> {
    ConcatEach(Groups(lines, n))
  }

  /** `sys.maxsize` on a 64-bit build. */
  const MaxSize: nat := 0x7FFF_FFFF_FFFF_FFFF

  /** The stop `islice` works with: it converts its argument to a
      `Py_ssize_t`, clipping a larger integer to `sys.maxsize`. */
  function ClipStop(n: nat): (r: nat)
    ensures 1 <= n ==> 1 <= r
    ensures r <= MaxSize && r <= n
    ensures n <= MaxSize ==> r == n
    ensures MaxSize < n ==> r == MaxSize
  {
    if n <= MaxSize then n else MaxSize
  }

  /** `islice` refuses a negative `chunk_size`. */
  datatype ChunkError = InvalidChunkSize

  /** Everything `process_large_file(path, chunk_size)` yields for a file
      with the given content, or the error `islice` raises. */
  function Chunks(content: string, chunkSize: int := 1000): (r: Result<seq<string>, ChunkError>)
    ensures r.Err? <==> chunkSize < 0
  {
    if chunkSize < 0 then Err(InvalidChunkSize)
    else Ok(ChunkTexts(FileLines(content), ClipStop(chunkSize)))
  }

  /** A chunk size above `sys.maxsize` reads as `sys.maxsize` lines at a
      time; a file with no more lines than that is then one chunk. */
  lemma OversizeChunkSize(content: string, chunkSize: int)
    requires chunkSize > MaxSize
    requires 1 <= |FileLines(content)| <= MaxSize
    ensures Chunks(content, chunkSize) == Chunks(content, MaxSize) == Ok([content])
  {
    var lines := FileLines(content);
    assert Groups(lines, MaxSize) == [lines];
    assert ConcatEach([lines]) == [Concat(lines)];
  }

  /** With a positive size, the groups hold every line once, in order. */
  lemma {:induction false} GroupsFlatten(lines: seq<string>, n: nat)
    requires n >= 1
    ensures Flatten(Groups(lines, n)) == lines
    decreases |lines|
  {
    if lines != [] && |lines| > n {
      GroupsFlatten(lines[n..], n);
      assert lines == lines[..n] + lines[n..];
    } else if lines != [] {
      assert Flatten([lines]) == lines + Flatten([]);
    }
  }

  /** A chunk size of zero gives no chunk; otherwise there is a chunk
      exactly when there is a line. */
  lemma GroupsEmpty(lines: seq<string>, n: nat)
    ensures Groups(lines, n) == [] <==> lines == [] || n == 0
  {
  }

  /** Every group holds between one and `n` lines, and all but the last
      exactly `n`. */
  predicate WellSized(g: seq<seq<string>>, n: nat) {
    forall k :: 0 <= k < |g| ==> 1 <= |g[k]| <= n && (k < |g| - 1 ==> |g[k]| == n)
  }

  /** The groups are well sized. */
  lemma {:induction false} GroupsSizes(lines: seq<string>, n: nat)
    ensures WellSized(Groups(lines, n), n)
    decreases |lines|
  {
    if lines != [] && n != 0 && |lines| > n {
      var g, h := Groups(lines, n), Groups(lines[n..], n);
      GroupsSizes(lines[n..], n);
      assert g == [lines[..n]] + h;
      forall k | 0 <= k < |g|
        ensures 1 <= |g[k]| <= n && (k < |g| - 1 ==> |g[k]| == n)
      {
        if k > 0 {
          assert g[k] == h[k - 1];
        }
      }
    }
  }

  /** There are just enough groups to hold every line: `|lines| / n`
      rounded up. */
  lemma {:induction false} GroupsCount(lines: seq<string>, n: nat)
    requires n >= 1
    ensures var g := Groups(lines, n);
      |lines| <= |g| * n && (|g| > 0 ==> (|g| - 1) * n < |lines|)
    decreases |lines|
  {
    if |lines| > n {
      var h := Groups(lines[n..], n);
      GroupsCount(lines[n..], n);
      assert |Groups(lines, n)| == |h| + 1;
      MulSucc(|h|, n);
      MulSucc(|h| - 1, n);
    }
  }

  /** Group `k` is the lines `k * n` up to `(k + 1) * n`, cut at the end of
      the file. */
  lemma {:induction false} GroupAt(lines: seq<string>, n: nat, k: nat)
    requires n >= 1 && k < |Groups(lines, n)|
    ensures k * n < |lines|
    ensures Groups(lines, n)[k] == lines[k * n..Min((k + 1) * n, |lines|)]
    decreases k
  {
    if k > 0 {
      var rest := lines[n..];
      assert Groups(lines, n) == [lines[..n]] + Groups(rest, n);
      GroupAt(rest, n, k - 1);
      MulSucc(k - 1, n);
      MulSucc(k, n);
      assert rest[(k - 1) * n..Min(k * n, |rest|)] == lines[k * n..Min((k + 1) * n, |lines|)];
    }
  }

  /** The layout of the groups: how many there are and which lines each
      holds. */
  lemma GroupsLayout(lines: seq<string>, n: nat)
    requires n >= 1
    ensures var g := Groups(lines, n);
      && |lines| <= |g| * n
      && (|g| > 0 ==> (|g| - 1) * n < |lines|)
      && forall k :: 0 <= k < |g| ==> k * n < |lines| && g[k] == lines[k * n..Min((k + 1) * n, |lines|)]
  {
    GroupsCount(lines, n);
    forall k | 0 <= k < |Groups(lines, n)|
      ensures k * n < |lines| && Groups(lines, n)[k] == lines[k * n..Min((k + 1) * n, |lines|)]
    {
      GroupAt(lines, n, k);
    }
  }

  /** `(k + 1) * n == k * n + n`. */
  lemma MulSucc(k: int, n: int)
    ensures (k + 1) * n == k * n + n
  {
  }

  /** A file of 2500 lines read 1000 at a time: two full chunks and one of
      500 lines. */
  lemma ThousandLineChunks(lines: seq<string>)
    requires |lines| == 2500
    ensures var g := Groups(lines, 1000);
      |g| == 3 && |g[0]| == 1000 && |g[1]| == 1000 && |g[2]| == 500
  {
    GroupsLayout(lines, 1000);
  }

  /** Joining the chunks joins the groups' lines. */
  lemma {:induction false} ConcatEachFlatten(g: seq<seq<string>>)
    ensures Concat(ConcatEach(g)) == Concat(Flatten(g))
    decreases |g|
  {
    if g != [] {
      ConcatEachFlatten(g[1..]);
      assert ConcatEach(g) == [Concat(g[0])] + ConcatEach(g[1..]);
      ConcatAppend(g[0], Flatten(g[1..]));
    }
  }

  /** Round trip: for a positive chunk size, the chunks joined in order
      are the content of the file. */
  lemma ChunksReassemble(content: string, chunkSize: int)
    requires chunkSize >= 1
    ensures Chunks(content, chunkSize).Ok?
    ensures Concat(Chunks(content, chunkSize).value) == content
  {
    var lines, n := FileLines(content), ClipStop(chunkSize);
    GroupsFlatten(lines, n);
    ConcatEachFlatten(Groups(lines, n));
  }

  /** The rest of the file from line `pos` yields the chunk the next
      `islice` reads and then the chunks after it. */
  lemma ChunkStep(lines: seq<string>, pos: nat, n: nat)
    requires pos < |lines| && n >= 1
    ensures ChunkTexts(lines[pos..], n)
            == [Concat(lines[pos..Min(pos + n, |lines|)])] + ChunkTexts(lines[Min(pos + n, |lines|)..], n)
  {
    var rest, end := lines[pos..], Min(pos + n, |lines|);
    var first, after := lines[pos..end], lines[end..];
    assert rest[..end - pos] == first && rest[end - pos..] == after;
    if |rest| <= n {
      assert first == rest && after == [];
    }
    assert Groups(rest, n) == [first] + Groups(after, n);
    ConcatEachCons(first, Groups(after, n));
  }

  lemma ConcatEachCons(first: seq<string>, g: seq<seq<string>>)
    ensures ConcatEach([first] + g) == [Concat(first)] + ConcatEach(g)
  {
    assert forall k :: 1 <= k < |g| + 1 ==> ([first] + g)[k] == g[k - 1];
  }

  /** `process_large_file(path, chunk_size)` run to the end on a file with
      the given content, its chunks collected in order. */
  method ProcessLargeFile(content: string, chunkSize: int := 1000) returns (r: Result<seq<string>, ChunkError>)
    ensures r == Chunks(content, chunkSize)
  {
    if chunkSize < 0 {
      return Err(InvalidChunkSize);
    }
    var lines, n := FileLines(content), ClipStop(chunkSize);
    var chunks := [];
    var pos := 0;
    while true
      invariant pos <= |lines|
      invariant chunks + ChunkTexts(lines[pos..], n) == ChunkTexts(lines, n)
      decreases |lines| - pos
    {
      var end := Min(pos + n, |lines|);
      var chunk := lines[pos..end];
      if chunk == [] {
        break;
      }
      ChunkStep(lines, pos, n);
      ghost var later := ChunkTexts(lines[end..], n);
      assert (chunks + [Concat(chunk)]) + later == chunks + ([Concat(chunk)] + later);
      chunks := chunks + [Concat(chunk)];
      pos := end;
    }
    assert ChunkTexts(lines[pos..], n) == [];
    assert chunks + [] == chunks;
    return Ok(chunks);
  }

  /** `[func(c) for c in chunks]`, stopping at the first call that fails. */
  function ApplyAll<R, E>(func: string -> Result<R, E>, chunks: seq<string>): Result<seq<R>, E>
    decreases |chunks|
  {
    if chunks == [] then Ok([])
    else match func(chunks[0])
      case Err(e) => Err(e)
      case Ok(v) => Prepend([v], ApplyAll(func, chunks[1..]))
  }

  /** The results gathered so far in front of those still to come. */
  function Prepend<R, E>(done: seq<R>, r: Result<seq<R>, E>): Result<seq<R>, E> {
    match r
    case Ok(vs) => Ok(done + vs)
    case Err(e) => Err(e)
  }

  lemma PrependNothing<R, E>(r: Result<seq<R>, E>)
    ensures Prepend([], r) == r
  {
    if r.Ok? {
      assert [] + r.value == r.value;
    }
  }

  lemma PrependTwice<R, E>(a: seq<R>, b: seq<R>, r: Result<seq<R>, E>)
    ensures Prepend(a, Prepend(b, r)) == Prepend(a + b, r)
  {
    if r.Ok? {
      assert a + (b + r.value) == (a + b) + r.value;
    }
  }

  /** The calls succeed together or not at all: a result per chunk, in
      the order of the chunks. */
  lemma {:induction false} ApplyAllOk<R, E>(func: string -> Result<R, E>, chunks: seq<string>)
    ensures ApplyAll(func, chunks).Ok? <==> forall k :: 0 <= k < |chunks| ==> func(chunks[k]).Ok?
    ensures ApplyAll(func, chunks).Ok? ==>
      |ApplyAll(func, chunks).value| == |chunks| &&
      forall k :: 0 <= k < |chunks| ==> ApplyAll(func, chunks).value[k] == func(chunks[k]).value
    decreases |chunks|
  {
    if chunks != [] {
      ApplyAllOk(func, chunks[1..]);
      assert forall k :: 1 <= k < |chunks| ==> chunks[1..][k - 1] == chunks[k];
    }
  }

  /** A failure is that of the first chunk whose call fails. */
  lemma {:induction false} ApplyAllErr<R, E>(func: string -> Result<R, E>, chunks: seq<string>)
    ensures ApplyAll(func, chunks).Err? ==>
      exists k :: 0 <= k < |chunks| && func(chunks[k]) == Err(ApplyAll(func, chunks).error)
                  && forall m :: 0 <= m < k ==> func(chunks[m]).Ok?
    decreases |chunks|
  {
    if chunks != [] && func(chunks[0]).Ok? && ApplyAll(func, chunks).Err? {
      ApplyAllErr(func, chunks[1..]);
      var k :| 0 <= k < |chunks[1..]| && func(chunks[1..][k]) == Err(ApplyAll(func, chunks[1..]).error)
               && forall m :: 0 <= m < k ==> func(chunks[1..][m]).Ok?;
      assert chunks[k + 1] == chunks[1..][k];
      assert forall m :: 1 <= m < k + 1 ==> chunks[m] == chunks[1..][m - 1];
    }
  }

  /** Why `apply_to_large_file` stops: the chunk size, or the function. */
  datatype ApplyError<E> = BadChunkSize | CallbackFailed(reason: E)

  /** What `apply_to_large_file(path, func, chunk_size)` returns for a file
      with the given content, or the error it raises. */
  function ApplyToChunks<R, E>(content: string, func: string -> Result<R, E>, chunkSize: int := 1000)
    : (r: Result<seq<R>, ApplyError<E>>)
    ensures r == Err(BadChunkSize) <==> chunkSize < 0
  {
    match Chunks(content, chunkSize)
    case Err(_) => Err(BadChunkSize)
    case Ok(chunks) =>
      match ApplyAll(func, chunks)
      case Ok(vs) => Ok(vs)
      case Err(e) => Err(CallbackFailed(e))
  }

  /** `apply_to_large_file(path, func, chunk_size)`: `func` applied to each
      chunk in turn, the results collected in order. */
  method ApplyToLargeFile<R, E>(content: string, func: string -> Result<R, E>, chunkSize: int := 1000)
    returns (r: Result<seq<R>, ApplyError<E>>)
    ensures r == ApplyToChunks(content, func, chunkSize)
  {
    var produced := ProcessLargeFile(content, chunkSize);
    if produced.Err? {
      return Err(BadChunkSize);
    }
    var chunks := produced.value;
    var results := [];
    var k := 0;
    assert chunks[k..] == chunks;
    assert Prepend(results, ApplyAll(func, chunks)) == ApplyAll(func, chunks) by {
      PrependNothing(ApplyAll(func, chunks));
    }
    while k < |chunks|
      invariant k <= |chunks|
      invariant ApplyAll(func, chunks) == Prepend(results, ApplyAll(func, chunks[k..]))
    {
      assert chunks[k..][0] == chunks[k] && chunks[k..][1..] == chunks[k + 1..];
      match func(chunks[k])
      case Err(e) =>
        return Err(CallbackFailed(e));
      case Ok(v) =>
        PrependTwice(results, [v], ApplyAll(func, chunks[k + 1..]));
        results := results + [v];
      k := k + 1;
    }
    assert chunks[k..] == [];
    assert results + [] == results;
    return Ok(results);
  }

  /** The results line up with the chunks: when every call succeeds there
      is one result per chunk, `func` of that chunk; the first failing
      call decides the error. */
  lemma ApplyToChunksResults<R, E>(content: string, func: string -> Result<R, E>, chunkSize: int)
    requires chunkSize >= 0
    ensures var chunks := Chunks(content, chunkSize).value;
      var r := ApplyToChunks(content, func, chunkSize);
      && (r.Ok? <==> forall k :: 0 <= k < |chunks| ==> func(chunks[k]).Ok?)
      && (r.Ok? ==> |r.value| == |chunks| && forall k :: 0 <= k < |chunks| ==> r.value[k] == func(chunks[k]).value)
      && (r.Err? ==> exists k :: 0 <= k < |chunks| && func(chunks[k]).Err? && r.error == CallbackFailed(func(chunks[k]).error)
                                && forall m :: 0 <= m < k ==> func(chunks[m]).Ok?)
  {
    var chunks := Chunks(content, chunkSize).value;
    ApplyAllOk(func, chunks);
    ApplyAllErr(func, chunks);
  }
}

/**
 * `chunk_text` of app/embedder.py: the text is split on whitespace into
 * words, and the words are grouped into consecutive runs of `chunk_size`,
 * one run for each start index in `range(0, len(words), chunk_size)`, each
 * run joined with single spaces. The last run may be shorter.
 */
module Embedder {
  import opened Wrappers
  import opened Words

  /** The default `chunk_size`. */
  const DefaultChunkSize := 400

  /** The exception `chunk_text` can raise: `range()` refuses a step of zero. */
  datatype ChunkError = ZeroStep

  function Min(a: int, b: int): int
  {
    if a < b then a else b
  }

  /** `s[lo:hi]` for `0 <= lo <= hi`: a slice that stops early at the end of `s`. */
  function Slice<T>(s: seq<T>, lo: nat, hi: nat): seq<T>
    requires lo <= hi
  {
    s[Min(lo, |s|)..Min(hi, |s|)]
  }

  /** `len(range(0, n, size))` for a positive step. */
  function NumChunks(n: nat, size: nat): nat
    requires size > 0
  {
    (n + size - 1) / size
  }

  /** The word runs: `words[i:i + size]` for each `i` in `range(0, len(words), size)`. */
  function Groups(words: seq<string>, size: nat): seq<seq<string>>
    requires size > 0
  {
    seq(NumChunks(|words|, size), j requires 0 <= j < NumChunks(|words|, size) =>
      Slice(words, j * size, j * size + size))
  }

  /** `chunk_text(text, chunk_size)`. */
  function ChunkText(text: string, chunkSize: int := DefaultChunkSize): (r: Result<seq<string>, ChunkError>)
    ensures r.Failure? <==> chunkSize == 0
  {
    var words := Split(text);
    if chunkSize == 0 then Failure(ZeroStep)
    else if chunkSize < 0 then Success([])
    else
      var groups := Groups(words, chunkSize);
      Success(seq(|groups|, j requires 0 <= j < |groups| => Join(groups[j])))
  }

  /** The concatenation of a sequence of sequences, in order. */
  function Concat<T>(parts: seq<seq<T>>): seq<T>
  {
    if parts == [] then [] else parts[0] + Concat(parts[1..])
  }

  lemma {:induction false} ConcatAppend<T>(parts: seq<seq<T>>, last: seq<T>)
    ensures Concat(parts + [last]) == Concat(parts) + last
  {
    if parts != [] {
      assert (parts + [last])[1..] == parts[1..] + [last];
      ConcatAppend(parts[1..], last);
    }
  }

  /** The run count is the ceiling of `n / size`: enough runs to hold every word, and no more. */
  lemma NumChunksBounds(n: nat, size: nat)
    requires size > 0
    ensures n <= NumChunks(n, size) * size
    ensures NumChunks(n, size) > 0 ==> (NumChunks(n, size) - 1) * size < n
    ensures NumChunks(n, size) == 0 <==> n == 0
  {
    var c, r := NumChunks(n, size), (n + size - 1) % size;
    assert n + size - 1 == c * size + r;
    assert (c - 1) * size == c * size - size;
  }

  lemma {:induction false} MulMonotone(a: nat, b: nat, size: nat)
    requires a <= b
    ensures a * size <= b * size
    decreases b - a
  {
    if a < b {
      MulMonotone(a, b - 1, size);
      assert b * size == (b - 1) * size + size;
    }
  }

  /** Run `j` starts inside the word list and holds the words `[j * size, min((j + 1) * size, n))`. */
  lemma GroupAt(words: seq<string>, size: nat, j: nat)
    requires size > 0 && j < NumChunks(|words|, size)
    ensures j * size < |words|
    ensures Groups(words, size)[j] == words[j * size..Min(j * size + size, |words|)]
  {
    NumChunksBounds(|words|, size);
    MulMonotone(j, NumChunks(|words|, size) - 1, size);
  }

  /** The first `m` runs, concatenated, are the first `min(m * size, n)` words. */
  lemma {:induction false} GroupsPrefix(words: seq<string>, size: nat, m: nat)
    requires size > 0 && m <= NumChunks(|words|, size)
    ensures Concat(Groups(words, size)[..m]) == words[..Min(m * size, |words|)]
  {
    var groups := Groups(words, size);
    if m > 0 {
      var lo, hi := (m - 1) * size, m * size;
      assert hi == lo + size;
      GroupsPrefix(words, size, m - 1);
      GroupAt(words, size, m - 1);
      assert Concat(groups[..m - 1]) == words[..lo];
      assert groups[m - 1] == words[lo..Min(hi, |words|)];
      assert groups[..m] == groups[..m - 1] + [groups[m - 1]];
      ConcatAppend(groups[..m - 1], groups[m - 1]);
      assert words[..lo] + words[lo..Min(hi, |words|)] == words[..Min(hi, |words|)];
    }
  }

  /** The runs, concatenated in order, give back every word once and in order. */
  lemma GroupsConcat(words: seq<string>, size: nat)
    requires size > 0
    ensures Concat(Groups(words, size)) == words
  {
    var groups := Groups(words, size);
    GroupsPrefix(words, size, |groups|);
    NumChunksBounds(|words|, size);
    assert groups[..|groups|] == groups;
  }

  /**
   * Chunk `j` is the words at `[j * size, min((j + 1) * size, n))` of the text
   * joined with single spaces, and splitting it gives back exactly those words.
   */
  lemma ChunkWords(text: string, chunkSize: int, j: nat)
    requires chunkSize > 0 && j < |ChunkText(text, chunkSize).value|
    ensures j * chunkSize < |Split(text)|
    ensures ChunkText(text, chunkSize).value[j]
      == Join(Split(text)[j * chunkSize..Min(j * chunkSize + chunkSize, |Split(text)|)])
    ensures Split(ChunkText(text, chunkSize).value[j])
      == Split(text)[j * chunkSize..Min(j * chunkSize + chunkSize, |Split(text)|)]
  {
    var words, lo := Split(text), j * chunkSize;
    GroupAt(words, chunkSize, j);
    var group := Groups(words, chunkSize)[j];
    assert group == words[lo..Min(lo + chunkSize, |words|)];
    assert forall i :: 0 <= i < |group| ==> group[i] == words[lo + i];
    assert ChunkText(text, chunkSize).value[j] == Join(group);
    SplitJoin(group);
  }

  /**
   * For a positive `chunk_size` the call succeeds, and the number of chunks
   * is the ceiling of the word count divided by `chunk_size`.
   */
  lemma ChunkCount(text: string, chunkSize: int)
    requires chunkSize > 0
    ensures ChunkText(text, chunkSize).Success?
    ensures |Split(text)| <= |ChunkText(text, chunkSize).value| * chunkSize
    ensures |ChunkText(text, chunkSize).value| > 0 ==>
      (|ChunkText(text, chunkSize).value| - 1) * chunkSize < |Split(text)|
  {
    NumChunksBounds(|Split(text)|, chunkSize);
  }

  /**
   * Every chunk holds at most `chunk_size` words; every chunk but the last
   * holds exactly `chunk_size`, and the last is not empty.
   */
  lemma ChunkSizes(text: string, chunkSize: int)
    requires chunkSize > 0
    ensures forall j :: 0 <= j < |ChunkText(text, chunkSize).value| ==>
      |Split(ChunkText(text, chunkSize).value[j])| <= chunkSize
    ensures forall j :: 0 <= j < |ChunkText(text, chunkSize).value| - 1 ==>
      |Split(ChunkText(text, chunkSize).value[j])| == chunkSize
    ensures ChunkText(text, chunkSize).value != [] ==>
      |Split(ChunkText(text, chunkSize).value[|ChunkText(text, chunkSize).value| - 1])| > 0
  {
    var chunks := ChunkText(text, chunkSize).value;
    var n := |Split(text)|;
    forall j | 0 <= j < |chunks|
      ensures |Split(chunks[j])| <= chunkSize
      ensures j < |chunks| - 1 ==> |Split(chunks[j])| == chunkSize
      ensures |Split(chunks[j])| > 0
    {
      var lo := j * chunkSize;
      ChunkWords(text, chunkSize, j);
      assert |Split(chunks[j])| == Min(lo + chunkSize, n) - lo;
      if j < |chunks| - 1 {
        ChunkWords(text, chunkSize, j + 1);
        assert (j + 1) * chunkSize == lo + chunkSize;
      }
    }
  }

  /**
   * Splitting each chunk back into words and concatenating the results in
   * order gives the words of the text: the chunks neither overlap, drop nor
   * reorder words.
   */
  lemma ChunkReassembly(text: string, chunkSize: int)
    requires chunkSize > 0
    ensures var chunks := ChunkText(text, chunkSize).value;
      Concat(seq(|chunks|, j requires 0 <= j < |chunks| => Split(chunks[j]))) == Split(text)
  {
    var words := Split(text);
    var groups := Groups(words, chunkSize);
    var chunks := ChunkText(text, chunkSize).value;
    var resplit := seq(|chunks|, j requires 0 <= j < |chunks| => Split(chunks[j]));
    forall j | 0 <= j < |chunks|
      ensures resplit[j] == groups[j]
    {
      SplitJoin(groups[j]);
    }
    assert resplit == groups;
    GroupsConcat(words, chunkSize);
  }

  /**
   * A call that does not raise returns no chunks exactly when the text is
   * empty or whitespace only, or when `chunk_size` is negative.
   */
  lemma ChunkEmpty(text: string, chunkSize: int)
    requires chunkSize != 0
    ensures ChunkText(text, chunkSize) == Success([]) <==>
      chunkSize < 0 || forall i :: 0 <= i < |text| ==> IsSpace(text[i])
  {
    SplitBlank(text);
    if chunkSize > 0 {
      NumChunksBounds(|Split(text)|, chunkSize);
      assert |ChunkText(text, chunkSize).value| == NumChunks(|Split(text)|, chunkSize);
    }
  }

  /** A text of 1000 words with the default size gives three chunks of 400, 400 and 200 words. */
  lemma ThousandWords(text: string)
    requires |Split(text)| == 1000
    ensures ChunkText(text).Success? && |ChunkText(text).value| == 3
    ensures |Split(ChunkText(text).value[0])| == 400
    ensures |Split(ChunkText(text).value[1])| == 400
    ensures |Split(ChunkText(text).value[2])| == 200
  {
    ChunkWords(text, DefaultChunkSize, 0);
    ChunkWords(text, DefaultChunkSize, 1);
    ChunkWords(text, DefaultChunkSize, 2);
  }
}

# pdf-agent: the document cache and the text chunker, in Dafny

This project models the two self-contained pieces of the pdf-agent
question-answering pipeline:

- **`PDFCache`** (app/cache.py): a bounded least-recently-used cache from a
  document hash to the data built for that document. Its entries live in an
  ordered dictionary, oldest first. `get` moves a hit to the most recent end.
  `set` on a new key appends it and, if the cache is then over `max_size`,
  drops the single oldest entry. `set` on a key already present only moves
  that key to the end and keeps the value already stored. `clear` empties
  the cache.
- **`chunk_text`** (app/embedder.py): splits a text on whitespace into words
  and groups consecutive words into runs of `chunk_size` (400 by default),
  each run joined with single spaces.

Files:

- `wrappers.dfy`: `Option` (Python's `None` return) and `Result` (a raised
  exception).
- `cache.dfy`, module `Cache`: the ordered dictionary as the value
  `OrderedDict(order, data)`: the keys oldest first, plus a map to their
  values. Its primitive operations are `MoveToEnd` (`move_to_end`), `Insert`
  (inserting a new key) and `PopOldest` (`popitem(last=False)`). The class
  `PDFCache` holds one such value and a capacity, and its methods `Get`,
  `Set` and `Clear` reassign it step by step as the Python methods do. Each
  method's `ensures` ties the new entries to a function of the old ones
  (`AfterGet`, `AfterSet`, `Empty`). The lemmas prove what those functions
  mean: the capacity bound, distinct keys, recency order and which single
  entry each call touches. `Replay` runs any sequence of calls, and
  `CapacityBound` proves the bound for all of them.
- `words.dfy`, module `Words`: Python's `str.split()` (cutting at the code
  points `str.isspace` accepts) and `" ".join`, with the round trip
  `Split(Join(words)) == words`.
- `embedder.dfy`, module `Embedder`: `ChunkText`, written as the source's
  comprehension over `range(0, len(words), chunk_size)` with clamped slices,
  and lemmas on chunk count, chunk sizes, the exact words of each chunk and
  reassembly.

The key type of the cache is a type parameter: the MD5 hex digest is opaque
to the cache. The cached value is a type parameter too.

Behaviour of the code worth noting:

- `max_size` is not validated: with `max_size <= 0`, `set` on a new key
  inserts it and then evicts that same key, so the cache stays empty
  (`SetNewEffect`).
- `set` on a present key keeps the stored value and ignores the new `data`.
- `chunk_text` with `chunk_size == 0` raises (`range()` refuses a zero
  step), even for an empty text. A negative `chunk_size` returns no chunks.
  Both cases are modelled; neither is excluded by a precondition.

## Model

| member | source | states |
|---|---|---|
| Cache.RemoveFacts | app/cache.py:18 | taking a key out of the order keeps exactly the other keys; a duplicate-free order stays duplicate-free and loses one position |
| Cache.RemoveAt | app/cache.py:18 | taking out the key at position i of a duplicate-free order leaves the keys before and after i, in their order |
| Cache.SizeAgrees | app/cache.py:29 | in a well-formed cache the key order and the map hold the same number of entries, so `len(self.cache)` is well defined |
| Cache.MoveToEndEffect | app/cache.py:18 | `move_to_end` keeps the cache well formed, keeps every value and the size, puts the key last and keeps the relative order of the other keys |
| Cache.InsertEffect | app/cache.py:27 | inserting an absent key keeps the cache well formed and grows it by one |
| Cache.PopOldestEffect | app/cache.py:30 | `popitem(last=False)` keeps the cache well formed and shrinks it by one |
| Cache.GetEffect | app/cache.py:14-20 | a miss returns None and changes nothing; a hit returns the stored value, keeps every value and moves only that key to the end; the capacity bound is kept |
| Cache.SetExistingEffect | app/cache.py:24-25 | `set` on a present key keeps the old value, ignores the new one, keeps the size and moves the key to the end, the others keeping their order |
| Cache.SetNewEffect | app/cache.py:26-30 | `set` on an absent key appends it below capacity; at capacity exactly the oldest key is evicted, never the new one when `max_size >= 1`; with `max_size <= 0` nothing is kept; the bound holds |
| Cache.StepKeepsInvariant | app/cache.py:14-34 | each of `get`, `set` and `clear` keeps keys distinct and the size within the capacity |
| Cache.ReplayKeepsInvariant | app/cache.py:14-34 | any sequence of calls keeps keys distinct and the size within the capacity |
| Cache.CapacityBound | app/cache.py:5-34 | from an empty cache, after any sequence of calls, the size is at most `max_size` (zero for a negative capacity) and the keys are pairwise distinct |
| Cache.PDFCache.constructor | app/cache.py:5-7 | a new cache is empty and keeps the capacity given, 2 by default |
| Cache.PDFCache.Get | app/cache.py:14-20 | returns the stored value or None, and leaves the entries as `AfterGet` says, within capacity |
| Cache.PDFCache.Set | app/cache.py:22-30 | leaves the entries as `AfterSet` says, within capacity |
| Cache.PDFCache.Clear | app/cache.py:32-34 | empties the cache and keeps `max_size` |
| Cache.NewGlobalCache | app/cache.py:36-37 | the process-wide instance is an empty cache of capacity 10 |
| Cache.LruScenarioSteps | app/cache.py:14-30 | with capacity 2, `set(a)`, `set(b)`, `get(a)`, `set(c)` yield `[a]`, `[a, b]`, `[b, a]`, then `[a, c]` with `b` evicted |
| Cache.LruScenario | app/cache.py:14-30 | the same calls on a `PDFCache` object: the `get` returns `a`'s value, and only `a` then `c` remain, with their values |
| Words.WordLength | app/embedder.py:8 | the length of the longest whitespace-free prefix of a text |
| Words.Split | app/embedder.py:8 | every word that `text.split()` yields is non-empty and whitespace-free |
| Words.SplitBlank | app/embedder.py:8 | `text.split()` is empty exactly when the text is empty or all whitespace |
| Words.SplitJoin | app/embedder.py:8-10 | joining whitespace-free, non-empty words with single spaces and splitting again returns the same words |
| Embedder.ChunkText | app/embedder.py:7-12 | `chunk_text` raises exactly when `chunk_size` is 0 |
| Embedder.NumChunksBounds | app/embedder.py:11 | `len(range(0, n, size))` is the ceiling of n / size, and 0 exactly when n is 0 |
| Embedder.GroupAt | app/embedder.py:10-11 | run j starts inside the word list and holds the words `[j*size, min((j+1)*size, n))` |
| Embedder.GroupsPrefix | app/embedder.py:10-11 | the first m runs, concatenated, are the first `min(m*size, n)` words |
| Embedder.GroupsConcat | app/embedder.py:9-11 | the runs, concatenated in order, are exactly the word list |
| Embedder.ChunkWords | app/embedder.py:7-12 | chunk j is the words at indices `[j*chunk_size, min((j+1)*chunk_size, n))` of the text joined with single spaces, and splitting it gives back exactly those words |
| Embedder.ChunkCount | app/embedder.py:10-11 | for a positive `chunk_size` the call succeeds and yields the ceiling of n / `chunk_size` chunks |
| Embedder.ChunkSizes | app/embedder.py:9-11 | every chunk has at most `chunk_size` words, every chunk but the last exactly `chunk_size`, and the last at least one |
| Embedder.ChunkReassembly | app/embedder.py:8-11 | splitting every chunk and concatenating the results in order gives the words of the text |
| Embedder.ChunkEmpty | app/embedder.py:8-11 | a call that does not raise yields no chunks exactly when the text is empty or whitespace-only, or `chunk_size` is negative |
| Embedder.ThousandWords | app/embedder.py:7-12 | a 1000-word text with the default size gives three chunks of 400, 400 and 200 words |

## Left out

- `PDFCache.get_hash` (app/cache.py:9-12): file I/O and an MD5 digest. The key is a type parameter instead.
- `create_faiss_index` and the `SentenceTransformer` model (app/embedder.py:5, 14-20): floating-point embeddings computed by library code outside this repository.
- `retrieve` (app/retriever.py): a nearest-neighbour search inside the faiss library; its order and padding come from that library.
- `HuggingFaceLLM.generate` (app/llm/hf_llm.py) and `ask_ollama` (app/ollama_llm.py): HTTP calls to inference services.
- app.py and app/main.py: the Gradio interface and the interactive command-line loop (input, output, wiring).
- Concurrency: the cache has no locking, and calls are modelled one at a time.
- Python's dynamic typing: a non-integer `chunk_size` or a non-string text (which raise `TypeError`) is outside the model, and so is a non-integer `max_size` (`None` raises `TypeError` at the first `set` of a new key; a float such as 2.5 is compared as is). `maxSize` is an `int`.
- Cache.PDFCache.Get: Python returns `None` both on a miss and on a hit whose stored value is `None`. The model returns `Some(v)` on every hit, so it tells the two apart where the source cannot.
- Cache.PDFCache.Set, Cache.PDFCache.Get, Cache.PDFCache.Clear: the methods require the object invariant `Valid()`. A Python caller could corrupt `self.cache` or `self.max_size` directly between calls; that is not modelled.
- Determinism of `chunk_text` holds because `ChunkText` is a function; no separate lemma states it.

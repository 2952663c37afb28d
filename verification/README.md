# RAG chat server: a Dafny model of its core

The server (server/app.py) keeps a list `docs` of `(file, chunk text)` pairs
and a vector index over it. It offers four operations:

- `upload` extracts text from each file, cuts it into token windows with `chunk_text` and appends the chunks to `docs`;
- `build` embeds every chunk and builds the index;
- `ask` checks readiness, clamps `top_k`, searches the index and turns the hits into a prompt with numbered context blocks and a reply with numbered sources;
- `reset` forgets everything.

This project models these operations and proves properties about them:

- **Strings**: Python's `str.strip()`/`str.isspace()`.
- **Chunking**: `chunk_text`, meaning the token windows, their decoding, stripping and filtering.
- **Corpus**: the server state and `upload`, `build` and `reset`, with the invariant that an index row `j` holds the text of `docs[j]`.
- **Citations**: the numbering in `make_prompt` and the `sources` list of `ask`, including the decimal numerals inside `[n]`.
- **Retrieval**: `ask`, both as written and corrected (see Findings).
- **Util**: `Option`, `Min`, `Max` and a few sequence lemmas.

Foreign code becomes parameters of the model:

- the tokenizer: tokens are naturals, and `encode`/`decode` are functions;
- the chunker used by `upload`: a function `string -> seq<string>`, with `Chunking.ChunkTextOf` the real one;
- the embedding plus faiss search: `ranking`, the index rows ordered best match first;
- the chat completion: `complete`, a function of the prompt messages;
- the English prose of the prompt: a `Wording` value.

Some behaviour of the code that the model keeps as it is:

- the default `top_k` is 6;
- `top_k` is clamped to `[1, len(docs)]`, not to a fixed range;
- `build` with no documents replies `ok` with `chunks: 0` and leaves the state alone;
- chunks carry no identifiers, so an entry is identified by its position in `docs`;
- windows are measured in tokens, and there are `ceil(n / 340)` of them for `n` tokens;
- a short last window can repeat the tail of the window before it.

## Model

| member | source | states |
|---|---|---|
| Chunking.WindowsFrom | server/app.py:80-84 | the loop from counter `i` yields no window iff `i` is past the end, and every window it yields holds between 1 and 400 tokens |
| Chunking.WindowsFromCount | server/app.py:80-84 | starting at token `i`, the loop makes no window when `i` is past the end and otherwise `ceil((n - i) / 340)` windows |
| Chunking.WindowsFromAt | server/app.py:81-84 | window `k` from start `i` begins at `i + 340k`, inside the text, and holds the tokens up to 400 further or to the end |
| Chunking.WindowsShape | server/app.py:80-84 | there are `ceil(n / 340)` windows, none iff there are no tokens, they reach the end of the text, and window `k` is `tokens[340k .. min(340k + 400, n)]`, non-empty and at most 400 tokens long |
| Chunking.WindowsCover | server/app.py:81-84 | every token lies in some window, at the computed offset, so no token is skipped |
| Chunking.ConsecutiveOverlap | server/app.py:20-21 | a full window is followed by another, and the last 60 tokens of the one are the first 60 tokens of the next |
| Chunking.TrailingWindowRepeats | server/app.py:81-84 | once a window reaches the end of the text, any further window is just its tail after 340 tokens |
| Chunking.DecodeAll | server/app.py:83 | one decoded text per window, in window order |
| Chunking.StripAll | server/app.py:85 | one stripped text per raw chunk, in order |
| Chunking.NonEmpty | server/app.py:85 | the filter keeps no more than it is given, and no empty text |
| Chunking.KeptPositionsIncrease | server/app.py:85 | the filter keeps chunks in their original order |
| Chunking.KeptCount | server/app.py:85 | the filter keeps exactly one chunk per kept position |
| Chunking.NonEmptyAt | server/app.py:85 | the `m`-th kept chunk is the chunk at the `m`-th kept position |
| Chunking.KeptExactly | server/app.py:85 | a position is kept iff its stripped chunk is non-empty |
| Chunking.ChunksBound | server/app.py:76-85 | `chunk_text` returns at most `ceil(n / 340)` chunks, and none for an empty token list |
| Chunking.ChunkFromWindow | server/app.py:82-85 | every chunk is the stripped decoding of one window, and later chunks come from later windows |
| Chunking.WindowKeptIff | server/app.py:83-85 | a window yields a chunk iff its decoding is not all whitespace |
| Chunking.DecodeWindows | server/app.py:79-84 | the loop decodes exactly the windows of the token list, in order |
| Chunking.KeepNonEmpty | server/app.py:85 | the comprehension returns the stripped texts that are non-empty, in order |
| Chunking.ChunkTextOf | server/app.py:76-85 | `chunk_text` as a function of the text: encode it, cut the tokens into windows, decode and strip each window, drop the empty ones; the chunker `upload` uses |
| Chunking.ChunkText | server/app.py:76-85 | the result is the chunk list, bounded by the window count, and every chunk is non-empty and already stripped |
| Strings.IsSpace | server/app.py:85 | Python's whitespace set: space, tab, newline and carriage return are in it, printable ASCII otherwise is not, and nothing above U+3000 is |
| Strings.Strip | server/app.py:85 | the result starts and ends with a non-space character, or is empty |
| Strings.StripIsSlice | server/app.py:85 | `strip` removes only whitespace, from the two ends, and keeps the middle unchanged |
| Strings.StripEmptyIffBlank | server/app.py:134 | `not text.strip()` holds iff every character of the text is whitespace |
| Strings.StripIdempotent | server/app.py:85 | stripping a stripped chunk changes nothing |
| Corpus.NoDocsNoIndex | server/app.py:144-153 | in a reachable state, an index never exists while `docs` is empty |
| Corpus.Texts | server/app.py:150 | `texts` lists the chunk text of every entry of `docs`, in order |
| Corpus.Label | server/app.py:136-137 | each chunk of a file is paired with the file's name, in chunk order |
| Corpus.FileEntriesShape | server/app.py:133-137 | a blank file adds nothing; otherwise it adds one entry per chunk, named after the file, in chunk order |
| Corpus.EntryOrigin | server/app.py:131-138 | every entry an upload adds names one of the uploaded files and holds one of that file's chunks |
| Corpus.UploadedEntryWellFormed | server/app.py:131-138 | with the real chunker, every uploaded entry holds a non-empty, stripped chunk that is the decoding of a token window of its file |
| Corpus.ChunksToAdd | server/app.py:134-136 | a file whose text is all whitespace contributes no chunks; any other file contributes `chunk_text(text)` |
| Corpus.AppendChunks | server/app.py:136-138 | the inner loop appends `(filename, c)` for each chunk, in order, and counts them |
| Corpus.UploadFile | server/app.py:132-138 | one file appends exactly its entries and reports how many |
| Corpus.Upload | server/app.py:127-139 | `docs` grows by the entries of every file, in file order; the index is untouched; the reply counts the files, the added chunks and the new total; consistency is kept |
| Corpus.UploadKeepsRows | server/app.py:136-137 | appending to `docs` keeps every earlier entry, and the index still matches its prefix |
| Corpus.UploadPrefixConsistent | server/app.py:131-138 | a request that stops after the first `i` files of a batch still leaves a consistent state: `docs` extended by those files' entries, the index untouched |
| Corpus.SingleChunkFile | server/app.py:131-138 | a file whose text is not blank and which the chunker keeps as one chunk adds exactly one entry, that text under the file's name |
| Corpus.Build | server/app.py:141-153 | with no documents, `build` reports 0 chunks and changes nothing; otherwise the new index has one row per entry of `docs` holding its text, and the reply counts them |
| Corpus.BuildProperties | server/app.py:141-153 | `build` keeps the state consistent, and building twice is the same as building once |
| Corpus.Reset | server/app.py:199-205 | `reset` leaves no documents and no index, which is a consistent state |
| Citations.Decimal | server/app.py:109 | the numeral of a number is a non-empty string of digits |
| Citations.DecimalCanonical | server/app.py:109 | a numeral starts with `0` only when it is `0`, so it never has a leading zero |
| Citations.DecimalRoundTrip | server/app.py:109 | reading back the written numeral gives the number |
| Citations.ParseDecimalRoundTrip | server/app.py:114 | every canonical digit string is the numeral of the number it reads as |
| Citations.PositiveNumeral | server/app.py:114 | a digit string without a leading zero reads as a positive number |
| Citations.DecimalInjective | server/app.py:109 | distinct numbers have distinct numerals |
| Citations.Marker | server/app.py:109 | the marker of hit `i` is a bracketed numeral whose first digit is not zero |
| Citations.MarkerCites | server/app.py:109 | the marker written before hit `i` reads back as citation number `i + 1` |
| Citations.CitationIsMarker | server/app.py:114 | a well-formed citation `[n]` with `n >= 1` is exactly the marker of hit `n - 1` |
| Citations.MarkersDistinct | server/app.py:109 | different hits get different markers |
| Citations.BlockShape | server/app.py:109 | each context block starts with its marker and ends with the full hit text |
| Citations.Block | server/app.py:109 | the block of hit `i` is exactly as long as its marker, the file name, the text and the four characters ` (`, `)` and the line break |
| Citations.Blocks | server/app.py:109 | one block per hit, in hit order, numbered from 1 |
| Citations.SourcesText | server/app.py:109 | `sources_text`: the blocks of all hits joined with a blank line between neighbours |
| Citations.Join | server/app.py:109 | joining no blocks gives the empty string and joining one block gives that block |
| Citations.JoinLength | server/app.py:109 | the joined context has the length of the blocks plus the separators between them |
| Citations.JoinPart | server/app.py:109 | every block appears intact in the joined context at its offset |
| Citations.JoinSeparator | server/app.py:109 | consecutive blocks are separated by exactly one blank line |
| Citations.JoinEmbedded | server/app.py:116-120 | a block stays intact when the joined context is placed between other text |
| Citations.JoinEmbeddedPrefix | server/app.py:116-120 | any prefix of a block, such as its marker, also stays intact and in place when the joined context is framed by other text |
| Citations.MakePrompt | server/app.py:108-121 | the prompt is a system message with the fixed instructions followed by one user message |
| Citations.PromptFrame | server/app.py:116-120 | the user message opens with the labelled question and ends with the closing instructions, whatever the hits |
| Citations.PromptBlock | server/app.py:109-120 | block `i` of the context appears intact in the user message |
| Citations.PromptMarker | server/app.py:109-120 | in the user message, hit `i` is introduced by the marker `[i+1]` |
| Citations.Preview | server/app.py:193 | a preview is the first 300 characters of the text, or all of it when shorter |
| Citations.Sources | server/app.py:192-195 | one source per hit, in hit order, with id `i + 1`, the hit's file and the preview of its text |
| Citations.CitationsAlign | server/app.py:184-195 | for any list of hits, the marker of block `i` of the prompt reads as the id of source `i` of the reply, the block names the source's file, and the source's preview is a prefix of the text the block shows |
| Citations.CitationResolves | server/app.py:192-195 | a citation `[k]` names exactly one source, the one with id `k`, and no other marker spells it |
| Retrieval.ClampTopK | server/app.py:177-178 | a missing or zero `top_k` means 6; the result is at least 1, at most `n` when `n` is positive, and an in-range request is kept |
| Retrieval.Padding | server/app.py:180-181 | the missing results of a search are labelled `-1` |
| Retrieval.SearchLabels | server/app.py:180-181 | the search returns `k` labels: the best rows in ranking order, then `-1` for every result the index cannot supply |
| Retrieval.PyIndex | server/app.py:182 | `docs[j]` is an element of `docs`: entry `j` for `j >= 0`, entry `len(docs) + j` for a negative `j` |
| Retrieval.HitsFor | server/app.py:182 | one hit per label, hit `j` being `docs[labels[j]]` under Python's negative indexing |
| Retrieval.Hits | server/app.py:180-182 | a search for `k` results gives `k` hits, hit `i` being the entry behind result slot `i` |
| Retrieval.Cited | server/app.py:180-182 | the entry behind result slot `i` is an entry of `docs`: row `ranking[i]` inside the index, the last entry past it |
| Retrieval.Answer | server/app.py:180-195 | once `top_k` is settled, the reply has `top_k` sources, source `i` numbered `i + 1` with the file and the preview of the entry behind slot `i` |
| Retrieval.Ready | server/app.py:158 | the negation of `index is None or not docs`: an index exists and `docs` is not empty |
| Retrieval.AskAsWritten | server/app.py:156-196 | without an index or documents `ask` answers "not ready"; a blank question gets `no_question`; otherwise there are as many sources as the clamp to `len(docs)` gives, source `i` numbered `i + 1` with the file and preview of the entry behind slot `i`, which is the last entry of `docs` for every slot past the index |
| Retrieval.Ask | server/app.py:156-196 | the same gating; with `top_k` clamped to the index size, source `i` has id `i + 1` and names index row `ranking[i]`, giving that row's file and the preview of its embedded text |
| Retrieval.AskPromptMatchesSources | server/app.py:182-195 | in both versions of `ask`, the answer is the completion of the prompt built over the same hits as the returned sources, and hit `i` is the whole entry of `docs` at result slot `i`, full text included, not only its preview; so `[k]` in the prompt introduces the hit source `k` describes |
| Retrieval.AskAfterReset | server/app.py:199-205 | after `reset`, every question gets the not-ready answer |
| Retrieval.AskAgreesWhenFresh | server/app.py:177-182 | when the index covers all of `docs`, the written and the corrected `ask` give the same reply |
| Retrieval.AskAfterBuild | server/app.py:141-153 | right after a non-empty `build`, the written `ask` cites indexed chunks only |
| Retrieval.AskCitesDistinctRows | server/app.py:180-182 | the sources of the corrected `ask` name distinct index rows, so no chunk is cited twice, unlike the written `ask`, which repeats the last entry at every slot past the index |
| Retrieval.AsWrittenCitesLastEntry | server/app.py:177-182 | when `top_k`, clamped to `len(docs)`, exceeds the index size, the last entry of `docs` lies past the indexed prefix, and the written `ask` cites it at every slot past the index |
| Retrieval.AsWrittenAgreesIff | server/app.py:177-182 | the written and the corrected `ask` give the same reply iff the server is not ready, the question is blank, or `top_k` clamped to `len(docs)` fits in the index |
| Retrieval.Stale | server/app.py:127-153 | `upload` of `a.txt` (text `x`) on the empty server, `build`, then `upload` of `b.txt` (text `y`) leave `docs` holding both entries and an index of `a.txt`'s chunk only, for any chunker that keeps each one-letter text as one chunk |
| Retrieval.StaleReplies | server/app.py:177-196 | in that state a default question gets the sources `[1] a.txt x` and `[2] b.txt y` as written, though `y` is not indexed, and `[1] a.txt x` alone when corrected |
| Retrieval.UnindexedCitation | server/app.py:177-182 | the same replies, reached through the modelled `upload`, `build`, `upload` sequence |

## Left out

- `read_file_to_text` (server/app.py:43-74): PDF, DOCX and textract extraction is foreign code. An uploaded file enters the model as its name and extracted text.
- The `cl100k_base` tokenizer: foreign code. Tokens are naturals, and `encode`/`decode` are parameters.
  - Nothing is assumed about them: not even `decode(encode(t)) == t`.
  - The chunk properties are therefore stated about token windows and their decodings.
- `embed_texts`, the question embedding and the chat completion (server/app.py:87-94, 171-174, 185-190): network calls.
  - Embeddings are not modelled: the index is represented by the texts it was built from.
  - The completion is the parameter `complete`.
  - The batching by 1000 and the `embs` global have no visible effect beyond this and are left out.
- `build_faiss` and `search` (server/app.py:96-106): floating-point normalisation and inner products.
  - The search result is the parameter `ranking`, a best-first permutation of the index rows.
  - Ties and the distances `D` are not modelled.
- The prose of `make_prompt` (server/app.py:110-120) is the `Wording` parameter. Its layout around the question, context and instructions is modelled, but its words are not.
- The text of the not-ready answer and of the empty-build message are reduced to the constructors `NotReady` and `noDocuments`. The `status` fields are dropped.
- Exceptions from the embedding and completion providers, FastAPI routing, CORS and request validation are left out.
- Uploads that raise are left out: `Corpus.Upload` covers only batches where every file extracts and encodes. Two examples of a raise:
  - `read_file_to_text` on malformed PDF or DOCX bytes;
  - `enc.encode` (server/app.py:78) on text containing a special-token string such as `<|endoftext|>`.

  Such a request ends with no reply, and `docs` keeps the entries of the earlier files of the batch. `Corpus.UploadPrefixConsistent` states that this state is still consistent.
- Concurrent requests are left out: the model treats the global state as changed by one request at a time.
- Python strings and Dafny strings are both sequences of Unicode code points, so `Strip` and the 300-character preview count alike. Lone surrogates are left out: a Python string can hold them, but a Dafny `char` cannot.

## Findings

| source | as written | input that shows it | evidently intended | confidence | as-written member | corrected member |
|---|---|---|---|---|---|---|
| server/app.py:177-182 | `top_k` is clamped to `len(docs)`, but the search runs over the index built at the last `build`. Documents uploaded after it make `len(docs)` larger than `index.ntotal`, so faiss pads the labels with `-1`, and `docs[-1]` then cites the last, never-indexed chunk as a source. | upload `a.txt` (text `x`), `build`, upload `b.txt` (text `y`), ask any non-blank question with no `top_k`: the sources are `[1] a.txt x` and `[2] b.txt y` | clamp `top_k` to the number of indexed rows, so that every cited source is an indexed chunk | medium; not executed | Retrieval.UnindexedCitation | Retrieval.Ask |

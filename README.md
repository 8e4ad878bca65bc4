# Text chunker of the Chroma ingestion service

This project models the text chunker that the knowledge-base service of the
`go-llm-models` repository runs before it embeds a PDF. The model is written in Dafny
and its properties are proved. The chunker lives in
`internal/services/chromadb_service.go` and has three parts:

- `splitIntoSentences` reads the text byte by byte into a builder. At a terminal byte
  (`.`, `!` or `?`) it emits the trimmed builder as a sentence, unless the next byte is
  terminal too. Runs such as `...` or `?!` therefore stay together.
- `splitContent` first collapses all whitespace to single spaces and splits the result
  into sentences. It packs whole sentences into a `strings.Builder`, writing each one
  followed by a space. Before a sentence it closes the chunk when two things hold: the
  builder already holds at least `MinChunkSize` (500) bytes, and the sentence would take
  it past `MaxChunkSize` (1500). A new chunk starts with the last `OverlapSize` (100)
  words of the chunk just closed, if that chunk had more than 100 words.
- `AddDocuments` stores chunk `i` (0-based) under the id `doc_1_chunk_<i+1>` with the
  metadata `page: i+1`.

The files are:

- `strings.dfy` (module `Strings`) models the parts of Go's `strings` package that the
  chunker uses, over bytes and ASCII whitespace: `TrimSpace` as `Trim`, `Fields`, and
  `Join` with a single-space separator. It also holds the facts about them that the
  proofs need.
- `sentences.dfy` (module `Sentences`) holds the scanner `SplitIntoSentences`, an
  imperative loop.
  - It is proved equal to the recursive specification `SentencesOf`: cut the text after
    every boundary and trim each piece.
  - `SegmentsFrom` states the same cut without trimming.
  - Lemmas prove the sentence properties.
- `chunker.dfy` (module `Chunker`) holds `SplitContent` and its packing loop
  `PackSentences`.
  - These are proved against the declarative specification `IsPlan`, which relates the
    sentences, the "groups" (the sentences that went into each chunk) and the chunks.
  - `IsPlan` states the close rule in both directions, the seeding of every chunk with
    the previous chunk's overlap, and the text of every chunk.
  - Lemmas derive from `IsPlan` what a caller sees: the chunks' shape, their minimum
    size, the overlap, and that the sentences survive whole and in order.
  - `PlanUnique` shows that `IsPlan` pins down a single result.
- `ingest.dfy` (module `Ingest`) models the loop of `AddDocuments`. The embedding
  service and the collection are function parameters. The module proves that ids are
  distinct and that pages are 1-based.

Lengths are byte counts, as in the Go code: `len`, `Builder.Len()` and indexing
`text[i]` are all byte-wise. Each Dafny `char` therefore stands for one byte.

## Model

All source paths are in `internal/services/chromadb_service.go`.

| member | source | states |
|---|---|---|
| Strings.Trim | internal/services/chromadb_service.go:209 | `TrimSpace`: the result is no longer than the input; it is empty exactly when the input is all whitespace; otherwise it begins and ends with a visible byte |
| Strings.TrimBounds | internal/services/chromadb_service.go:209 | the trimmed string is the input with an all-whitespace prefix and an all-whitespace suffix removed |
| Strings.VisibleTrim | internal/services/chromadb_service.go:209 | trimming removes only whitespace: the visible bytes are kept, in order |
| Strings.TrimTrailingSpace | internal/services/chromadb_service.go:165 | trimming a builder that holds a tight text and one trailing space gives back exactly that text |
| Strings.Fields | internal/services/chromadb_service.go:152 | definition of `strings.Fields`: the maximal runs of non-whitespace bytes, left to right; its properties are the three rows below |
| Strings.FieldsAreWords | internal/services/chromadb_service.go:152 | every word `strings.Fields` returns is non-empty and contains no whitespace |
| Strings.VisibleFields | internal/services/chromadb_service.go:152 | splitting into words drops only whitespace |
| Strings.FieldsOfJoin | internal/services/chromadb_service.go:172-174 | round trip: splitting a single-space join of words gives back the same words |
| Strings.Join | internal/services/chromadb_service.go:174 | definition of `strings.Join(ws, " ")`: the strings of `ws` with one space between each two; `FieldsOfJoin` and `JoinNormalized` state its properties |
| Strings.JoinNormalized | internal/services/chromadb_service.go:174 | joining non-empty words with single spaces gives a normalized string, one with no runs of whitespace |
| Strings.Normalize | internal/services/chromadb_service.go:152 | definition of line 152's `strings.Join(strings.Fields(content), " ")`; the four rows below state its properties |
| Strings.NormalizeNormalized | internal/services/chromadb_service.go:152 | collapsing whitespace leaves only single spaces between visible bytes; the result is empty exactly when the content was all whitespace |
| Strings.VisibleNormalize | internal/services/chromadb_service.go:152 | collapsing whitespace keeps exactly the visible bytes, in order |
| Strings.NormalizeIdempotent | internal/services/chromadb_service.go:152 | collapsing whitespace twice is the same as collapsing it once |
| Strings.NormalizedAllSpace | internal/services/chromadb_service.go:152 | a normalized string is all whitespace only when it is empty |
| Sentences.IsBoundary | internal/services/chromadb_service.go:202-206 | definition of where the scanner emits a sentence: a terminal byte that is the last byte or is not followed by a terminal byte |
| Sentences.SentencesOf | internal/services/chromadb_service.go:194-222 | definition of the result of `splitIntoSentences`: the text cut after every boundary, each piece trimmed, a blank piece dropped; `SplitIntoSentences` is proved to return it and the rows below state its properties |
| Sentences.NextBoundary | internal/services/chromadb_service.go:202-206 | the first boundary at or after a position: no boundary lies before it, and it is one unless it is the end of the text |
| Sentences.SplitIntoSentences | internal/services/chromadb_service.go:194-222 | the scanner returns exactly `SentencesOf(text)`: cut after each terminal byte not followed by a terminal byte, every piece trimmed, a blank last piece dropped |
| Sentences.SegmentsConcat | internal/services/chromadb_service.go:198-199 | the untrimmed pieces of the cut, concatenated, are the text |
| Sentences.SegmentsCut | internal/services/chromadb_service.go:202-206 | pieces meet only where a terminal byte meets a non-terminal one; inside a piece, a terminal byte is always followed by another terminal byte (`...` is never split) |
| Sentences.SentencesAreTrimmedSegments | internal/services/chromadb_service.go:208-219 | the sentences are exactly the non-blank trimmed pieces of the cut, in order |
| Sentences.SentencesTight | internal/services/chromadb_service.go:209-211 | every sentence is non-empty with no leading or trailing whitespace (lines 209-211 and 217-219) |
| Sentences.SentencesEndTerminal | internal/services/chromadb_service.go:202-211 | every sentence but possibly the last ends in `.`, `!` or `?` |
| Sentences.SentencesVisible | internal/services/chromadb_service.go:198-221 | the sentences concatenated hold exactly the visible bytes of the text, in order: none lost, duplicated or reordered |
| Sentences.SentencesEmpty | internal/services/chromadb_service.go:216-219 | there are no sentences exactly when the text is empty or all whitespace |
| Sentences.NoTerminalOneSentence | internal/services/chromadb_service.go:216-219 | a non-blank text with no terminal byte is one sentence, the trimmed text |
| Sentences.SentencesNormalized | internal/services/chromadb_service.go:152-155 | the sentences of collapsed text are themselves normalized |
| Sentences.TerminalRunExample | internal/services/chromadb_service.go:203-206 | `Hi?! Ok...` gives exactly the two sentences `Hi?!` and `Ok...` |
| Chunker.Closes | internal/services/chromadb_service.go:163 | definition of the close condition: the builder length plus the sentence length passes `MaxChunkSize` and the builder holds at least `MinChunkSize` bytes |
| Chunker.Overlap | internal/services/chromadb_service.go:171-174 | definition of the words handed on to the next chunk: the last `OverlapSize` words of the closed chunk when it has more than `OverlapSize`, otherwise none; `CarryWords` and `OverlapWords` state its properties |
| Chunker.SpacedJoin | internal/services/chromadb_service.go:181-182 | a builder that has taken strings, each followed by a space, holds their single-space join and one trailing space |
| Chunker.SeedBuilder | internal/services/chromadb_service.go:168-178 | the reset builder holds the closed chunk's overlap (its last `OverlapSize` words when it has more, otherwise nothing), each word followed by a space |
| Chunker.CloseStep | internal/services/chromadb_service.go:163-165 | closing the builder adds the trimmed builder as the next chunk and keeps the rest of the plan |
| Chunker.AppendNext | internal/services/chromadb_service.go:181-182 | when the close rule does not fire, writing the sentence keeps the loop invariant `Packing` |
| Chunker.CloseNext | internal/services/chromadb_service.go:163-182 | when the close rule fires, closing, seeding and writing the sentence keep `Packing` |
| Chunker.PackingDone | internal/services/chromadb_service.go:185-188 | after the loop, adding the final chunk when the builder is not empty completes the plan |
| Chunker.PackSentences | internal/services/chromadb_service.go:157-188 | the packing loop returns chunks that, with the ghost groups, satisfy `IsPlan` for its sentences |
| Chunker.SplitContent | internal/services/chromadb_service.go:148-191 | `IsPlan` for the sentences of the collapsed content; no chunks exactly when the content is blank; every chunk trimmed and normalized; every chunk but the last at least `MinChunkSize - 1` bytes; the visible bytes of the stripped chunks are those of the content |
| Chunker.CarryWords | internal/services/chromadb_service.go:171-178 | the text carried into the next chunk is exactly the last 100 words of the chunk when it has strictly more than 100 words, and empty otherwise (so none with exactly 100) |
| Chunker.OverlapWords | internal/services/chromadb_service.go:171-178 | the words carried into the next chunk are words of the closed chunk: non-empty and without whitespace |
| Chunker.BuilderLength | internal/services/chromadb_service.go:163-165 | the builder that held a chunk held exactly one byte more than the trimmed chunk, its trailing space |
| Chunker.ChunkWithCarry | internal/services/chromadb_service.go:165-182 | each chunk is the carry of the chunk before it followed by its own sentences joined by single spaces |
| Chunker.StrippedGroups | internal/services/chromadb_service.go:159-188 | stripping its carry from each chunk leaves exactly its group of sentences, joined by single spaces |
| Chunker.PlanKeepsSentences | internal/services/chromadb_service.go:159-188 | sentences are never divided: the stripped chunks joined by single spaces are all the sentences joined by single spaces, in order |
| Chunker.PlanEmpty | internal/services/chromadb_service.go:185-188 | there are no chunks exactly when there are no sentences |
| Chunker.PlanChunkShape | internal/services/chromadb_service.go:163-188 | every chunk is trimmed and normalized; every chunk but the last has at least `MinChunkSize - 1` bytes |
| Chunker.PlanCloseRule | internal/services/chromadb_service.go:163 | no sentence inside a chunk fired the close rule; the first sentence after each chunk but the last did fire it, with the builder then holding the chunk and its trailing space |
| Chunker.SplitContentChunks | internal/services/chromadb_service.go:148-191 | the properties of `SplitContent`, stated on the chunks alone: emptiness, shape, minimum size, carry prefix, sentences kept whole and in order, visible bytes kept |
| Chunker.GroupAt | internal/services/chromadb_service.go:159-183 | each group is a consecutive non-empty run of the sentences; no close falls inside it; a close falls right after it unless it is the last group |
| Chunker.PlanStep | internal/services/chromadb_service.go:159-183 | two plans of the same sentences that agree up to a chunk also agree on the next one |
| Chunker.PlanUnique | internal/services/chromadb_service.go:148-191 | the sentences determine the groups and the chunks, so `IsPlan` describes one result |
| Ingest.Decimal | internal/services/chromadb_service.go:294 | the `%d` numeral is a non-empty string of digits, with no leading zero for a positive number |
| Ingest.DecimalRoundTrip | internal/services/chromadb_service.go:294 | reading the numeral back gives the number |
| Ingest.DecimalInjective | internal/services/chromadb_service.go:294 | different numbers have different numerals |
| Ingest.ChunkId | internal/services/chromadb_service.go:294 | an id is `doc_1_chunk_` followed by digits that do not start with `0` |
| Ingest.ChunkIdNumber | internal/services/chromadb_service.go:294 | the number in the id of chunk `i` is `i + 1` |
| Ingest.ChunkIdsDistinct | internal/services/chromadb_service.go:294 | two chunks have the same id exactly when they are at the same position |
| Ingest.StoreChunks | internal/services/chromadb_service.go:277-301 | the stored records are those of a prefix of the chunks, in order; all are stored exactly when the outcome is `Done`; otherwise the outcome names the first chunk whose embedding or storing failed |
| Ingest.StoredIds | internal/services/chromadb_service.go:285-294 | the stored records have pages 1, 2, … in chunk order, their own chunk's text, and pairwise distinct ids |

## Left out

- `readPDF`, the Chroma client, the Ollama embedding function, `generateEmbeddings` and
  the searches are not part of this model. They are I/O through third-party clients and
  involve float32 vectors.
- In `AddDocuments`, `embed` and `store` model the embedding call and `collection.Add`.
  Each is a function parameter, so the model treats each call as deterministic in the
  chunk or record. A failure is a `None` or `false` result.
- In `AddDocuments`, an error in the loop calls `log.Fatalf`, which ends the process;
  the `return` statements after it (lines 282 and 298) never run, and their fixed
  messages carry no chunk index. Where the source exits the process, the model instead
  returns the outcome `EmbedFailed(i)` or `AddFailed(i)`; the index `i` of the failing
  chunk is the model's own addition.
- The `fmt.Printf` tracing in `AddDocuments` is left out.
- Whitespace is ASCII whitespace only. Go's `strings.Fields` and `strings.TrimSpace`
  also treat multi-byte Unicode spaces (such as U+0085 and U+00A0) as whitespace when
  the text is valid UTF-8. The model treats those bytes as visible.
- The ghost out-parameter `groups` of `SplitContent` and `PackSentences` is not in the
  Go code. It records which sentences went into which chunk, so that the chunks can be
  specified.
- `SplitContent` is split into three members: `SplitContent` (normalize, split, pack),
  `PackSentences` (the loop of lines 157-188) and `SeedBuilder` (lines 168-178). In the
  source these are one function. The builder is modelled as a `string` value that is
  reassigned, and `Reset` as assigning the empty string.
- Go checks `len(sentence) > 0` at line 209. The model proves that this check always
  passes at a boundary (a terminal byte is visible), so the branch where the builder is
  not reset never runs.

/** The pure part of `AddDocuments`: every chunk produced by `splitContent` is embedded
    and stored as one record whose id is `doc_1_chunk_<n>` and whose metadata holds the
    source path and `page: n`, where `n` is the chunk's 1-based position.

    The embedding service and the collection are parameters: `embed` gives the
    embedding of a chunk or `None` when the service fails, and `store` says whether the
    collection accepted a record. */
module Ingest {

  datatype Option<T> = None | Some(value: T)

  /** One record handed to the collection: id, metadata and the chunk text itself. */
  datatype Record<E> = Record(id: string, source: string, page: nat, document: string, embedding: E)

  /** How the loop ended: every chunk stored, or the first chunk whose embedding or
      storing failed. */
  datatype Outcome = Done | EmbedFailed(index: nat) | AddFailed(index: nat)

  // ---------------------------------------------------------------------------
  // Decimal numerals (the `%d` verb)

  predicate IsDigit(c: char) {
    '0' <= c <= '9'
  }

  function DigitChar(d: nat): (c: char)
    requires d < 10
    ensures IsDigit(c)
  {
    "0123456789"[d]
  }

  function DigitValue(c: char): (d: nat)
    requires IsDigit(c)
    ensures d < 10
  {
    (c as int - '0' as int) as nat
  }

  predicate AllDigits(s: string) {
    forall i :: 0 <= i < |s| ==> IsDigit(s[i])
  }

  /** The decimal numeral of `n`, as `fmt.Sprintf("%d", n)` writes it. */
  function Decimal(n: nat): (s: string)
    ensures s != [] && AllDigits(s)
    ensures n > 0 ==> s[0] != '0'
    decreases n
  {
    if n < 10 then [DigitChar(n)] else Decimal(n / 10) + [DigitChar(n % 10)]
  }

  /** Reads a decimal numeral back: the partner of `Decimal`. */
  function ParseDecimal(s: string): nat
    requires AllDigits(s)
    decreases |s|
  {
    if s == [] then 0
    else ParseDecimal(s[..|s| - 1]) * 10 + DigitValue(s[|s| - 1])
  }

  lemma DigitRoundTrip(d: nat)
    requires d < 10
    ensures DigitValue(DigitChar(d)) == d
  {
  }

  /** Reading the numeral of `n` gives `n` back. */
  lemma {:induction false} DecimalRoundTrip(n: nat)
    ensures ParseDecimal(Decimal(n)) == n
    decreases n
  {
    var s := Decimal(n);
    if n < 10 {
      DigitRoundTrip(n);
      assert s[..|s| - 1] == [];
    } else {
      DecimalRoundTrip(n / 10);
      DigitRoundTrip(n % 10);
      assert s[..|s| - 1] == Decimal(n / 10);
    }
  }

  /** Different numbers have different numerals. */
  lemma DecimalInjective(m: nat, n: nat)
    ensures Decimal(m) == Decimal(n) ==> m == n
  {
    DecimalRoundTrip(m);
    DecimalRoundTrip(n);
  }

  // ---------------------------------------------------------------------------
  // Ids and records

  const IdPrefix: string := "doc_1_chunk_"

  /** The id of the chunk at 0-based index `i`: the prefix, then a 1-based number
      without leading zeros. */
  function ChunkId(i: nat): (id: string)
    ensures |id| > |IdPrefix| && id[..|IdPrefix|] == IdPrefix
    ensures AllDigits(id[|IdPrefix|..]) && id[|IdPrefix|] != '0'
  {
    IdPrefix + Decimal(i + 1)
  }

  /** The number in the id of chunk `i` is `i + 1`. */
  lemma ChunkIdNumber(i: nat)
    ensures ParseDecimal(ChunkId(i)[|IdPrefix|..]) == i + 1
  {
    assert ChunkId(i)[|IdPrefix|..] == Decimal(i + 1);
    DecimalRoundTrip(i + 1);
  }

  /** Chunks at different positions get different ids. */
  lemma ChunkIdsDistinct(i: nat, j: nat)
    ensures ChunkId(i) == ChunkId(j) <==> i == j
  {
    ChunkIdNumber(i);
    ChunkIdNumber(j);
  }

  /** The record stored for chunk `i` with its embedding `e`. */
  function RecordFor<E>(source: string, chunks: seq<string>, i: nat, e: E): Record<E>
    requires i < |chunks|
  {
    Record(ChunkId(i), source, i + 1, chunks[i], e)
  }

  /** `added` are the records of the first `|added|` chunks, in order, each embedded
      and accepted. */
  predicate StoredPrefix<E(==)>(source: string, chunks: seq<string>, embed: string -> Option<E>,
                            store: Record<E> -> bool, added: seq<Record<E>>)
  {
    |added| <= |chunks| &&
    forall k :: 0 <= k < |added| ==>
      embed(chunks[k]).Some? &&
      added[k] == RecordFor(source, chunks, k, embed(chunks[k]).value) &&
      store(added[k])
  }

  /** The loop of `AddDocuments` over the chunks (lines 277-294): embeds each chunk,
      stores its record, and stops at the first failure. */
  method StoreChunks<E(==)>(source: string, chunks: seq<string>, embed: string -> Option<E>,
                        store: Record<E> -> bool)
    returns (added: seq<Record<E>>, outcome: Outcome)
    ensures StoredPrefix(source, chunks, embed, store, added)
    ensures outcome == Done <==> |added| == |chunks|
    ensures outcome.EmbedFailed? ==>
      outcome.index == |added| < |chunks| && embed(chunks[|added|]).None?
    ensures outcome.AddFailed? ==>
      outcome.index == |added| < |chunks| && embed(chunks[|added|]).Some? &&
      !store(RecordFor(source, chunks, |added|, embed(chunks[|added|]).value))
  {
    added := [];
    for i := 0 to |chunks|
      invariant |added| == i
      invariant StoredPrefix(source, chunks, embed, store, added)
    {
      var embedding := embed(chunks[i]);
      if embedding.None? {
        return added, EmbedFailed(i);
      }
      var record := Record(IdPrefix + Decimal(i + 1), source, i + 1, chunks[i], embedding.value);
      if !store(record) {
        return added, AddFailed(i);
      }
      added := added + [record];
    }
    outcome := Done;
  }

  /** The stored records have pairwise different ids and pages 1, 2, ... in chunk order. */
  lemma StoredIds<E>(source: string, chunks: seq<string>, embed: string -> Option<E>,
                     store: Record<E> -> bool, added: seq<Record<E>>)
    requires StoredPrefix(source, chunks, embed, store, added)
    ensures forall k :: 0 <= k < |added| ==> added[k].page == k + 1 && added[k].document == chunks[k]
    ensures forall j, k :: 0 <= j < k < |added| ==> added[j].id != added[k].id
  {
    forall j, k | 0 <= j < k < |added|
      ensures added[j].id != added[k].id
    {
      ChunkIdsDistinct(j, k);
    }
  }
}

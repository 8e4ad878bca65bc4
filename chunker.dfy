/** The chunker `splitContent`: collapses the whitespace of the text, splits it into
    sentences and packs whole sentences into chunks of about 500 to 1500 bytes, each new
    chunk starting with the last 100 words of the chunk before it.

    `IsPlan` is the specification. It states which sentences went into which chunk (the
    "groups"), that a chunk is closed exactly where the close rule fires, and what every
    chunk's text is. The lemmas below derive from it what a caller sees of the chunks:
    their shape, their minimum size, their overlap, and that the sentences come back
    whole and in order once the overlaps are stripped. */
module Chunker {
  import opened Strings
  import opened Sentences

  /** Maximum characters per chunk; the close rule's upper bound. */
  const MaxChunkSize: nat := 1500
  /** Minimum characters per chunk; a chunk shorter than this is never closed. */
  const MinChunkSize: nat := 500
  /** Number of words carried over from one chunk into the next. */
  const OverlapSize: nat := 100

  /** The close rule: the builder is closed before `sentence` exactly when adding the
      sentence would pass `MaxChunkSize` and the builder already holds `MinChunkSize` bytes. */
  predicate Closes(bufLen: nat, sentence: string) {
    bufLen + |sentence| > MaxChunkSize && bufLen >= MinChunkSize
  }

  /** What the builder holds after writing each string of `ws` followed by one space. */
  function Spaced(ws: seq<string>): string {
    SpacedUpTo(ws, |ws|)
  }

  /** `Spaced` of the first `n` strings of `ws`. */
  function SpacedUpTo(ws: seq<string>, n: nat): string
    requires n <= |ws|
  {
    if n == 0 then [] else SpacedUpTo(ws, n - 1) + ws[n - 1] + " "
  }

  /** The groups, in order, concatenated. */
  function Flatten(groups: seq<seq<string>>): seq<string> {
    FlattenUpTo(groups, |groups|)
  }

  /** `Flatten` of the first `n` groups. */
  function FlattenUpTo(groups: seq<seq<string>>, n: nat): seq<string>
    requires n <= |groups|
  {
    if n == 0 then [] else FlattenUpTo(groups, n - 1) + groups[n - 1]
  }

  /** The words a closed chunk hands on to the next one: its last `OverlapSize` words when
      it has strictly more than that, otherwise none. */
  function Overlap(chunk: string): seq<string> {
    var words := Fields(chunk);
    if |words| > OverlapSize then words[|words| - OverlapSize..] else []
  }

  /** The words chunk `k` starts with: none for the first chunk, the overlap of the one
      before it otherwise. */
  function Seed(chunks: seq<string>, k: nat): seq<string>
    requires k <= |chunks|
  {
    if k == 0 then [] else Overlap(chunks[k - 1])
  }

  /** Sentence `j` of `group`, written after `seed` and the sentences before it, does not
      fire the close rule. */
  predicate FitsAt(seed: seq<string>, group: seq<string>, j: nat)
    requires j < |group|
  {
    !Closes(|Spaced(seed + group[..j])|, group[j])
  }

  /** Writing `group` after `seed` never fires the close rule before the group's last
      sentence. */
  predicate Packed(seed: seq<string>, group: seq<string>) {
    forall j :: 0 < j < |group| ==> FitsAt(seed, group, j)
  }

  /** `chunk` is the trimmed builder that held `seed` and then the non-empty `group`,
      written without closing in between. */
  predicate ChunkFrom(seed: seq<string>, group: seq<string>, chunk: string) {
    group != [] && Packed(seed, group) && chunk == Trim(Spaced(seed + group))
  }

  /** Chunk `k` came from group `k`. */
  predicate ChunkAt(groups: seq<seq<string>>, chunks: seq<string>, k: nat)
    requires k < |chunks| && |groups| == |chunks|
  {
    ChunkFrom(Seed(chunks, k), groups[k], chunks[k])
  }

  /** Chunk `k - 1` was closed because of the first sentence of group `k`. */
  predicate ClosedBefore(chunks: seq<string>, groups: seq<seq<string>>, k: nat)
    requires 0 < k < |chunks| && |groups| == |chunks|
  {
    groups[k] != [] && Closes(|Spaced(Seed(chunks, k - 1) + groups[k - 1])|, groups[k][0])
  }

  /** The closed chunks and the groups they came from, as far as they go. */
  predicate PlanSoFar(groups: seq<seq<string>>, chunks: seq<string>) {
    && |groups| == |chunks|
    && (forall k :: 0 <= k < |chunks| ==> ChunkAt(groups, chunks, k))
    && (forall k :: 0 < k < |chunks| ==> ClosedBefore(chunks, groups, k))
  }

  /** `splitContent` packs `sentences` as `groups`, giving `chunks`. */
  predicate IsPlan(sentences: seq<string>, groups: seq<seq<string>>, chunks: seq<string>) {
    PlanSoFar(groups, chunks) && Flatten(groups) == sentences
  }

  /** Where the builder waits for the next sentence, its contents came from the first
      sentence of the open group (if any): the last closed chunk was closed because of it. */
  predicate Pending(groups: seq<seq<string>>, chunks: seq<string>, open: seq<string>)
    requires |groups| == |chunks|
  {
    open != [] && chunks != [] ==>
      Closes(|Spaced(Seed(chunks, |chunks| - 1) + groups[|groups| - 1])|, open[0])
  }

  // ---------------------------------------------------------------------------
  // Facts about the builder

  lemma {:induction false} SpacedUpToPrefix(ws: seq<string>, vs: seq<string>, n: nat)
    requires n <= |ws| && n <= |vs|
    requires forall i :: 0 <= i < n ==> ws[i] == vs[i]
    ensures SpacedUpTo(ws, n) == SpacedUpTo(vs, n)
  {
    if n > 0 {
      SpacedUpToPrefix(ws, vs, n - 1);
    }
  }

  lemma SpacedSnoc(ws: seq<string>, w: string)
    ensures Spaced(ws + [w]) == Spaced(ws) + w + " "
  {
    SpacedUpToPrefix(ws + [w], ws, |ws|);
  }

  /** The builder holds its strings joined by single spaces, then one trailing space. */
  lemma {:induction false} SpacedJoin(ws: seq<string>)
    requires ws != []
    ensures Spaced(ws) == Join(ws) + " "
    decreases |ws|
  {
    var init := ws[..|ws| - 1];
    SpacedUpToPrefix(ws, init, |ws| - 1);
    if |ws| > 1 {
      SpacedJoin(init);
    }
  }

  lemma SpacedEmpty(ws: seq<string>)
    ensures |Spaced(ws)| == 0 <==> ws == []
  {
  }

  lemma {:induction false} FlattenUpToPrefix(gs: seq<seq<string>>, hs: seq<seq<string>>, n: nat)
    requires n <= |gs| && n <= |hs|
    requires forall i :: 0 <= i < n ==> gs[i] == hs[i]
    ensures FlattenUpTo(gs, n) == FlattenUpTo(hs, n)
  {
    if n > 0 {
      FlattenUpToPrefix(gs, hs, n - 1);
    }
  }

  lemma FlattenSnoc(groups: seq<seq<string>>, g: seq<string>)
    ensures Flatten(groups + [g]) == Flatten(groups) + g
  {
    FlattenUpToPrefix(groups + [g], groups, |groups|);
  }

  // ---------------------------------------------------------------------------
  // The steps of the loop

  /** Lines 168-178: the builder, reset after closing `lastChunk`, is seeded with that
      chunk's last `OverlapSize` words joined by spaces, and one space, when it has more
      than `OverlapSize` words, and is left empty otherwise. */
  method SeedBuilder(lastChunk: string) returns (current: string)
    ensures current == Spaced(Overlap(lastChunk))
  {
    current := "";
    if |lastChunk| > 0 {
      var words := Fields(lastChunk);
      if |words| > OverlapSize {
        var overlap := Join(words[|words| - OverlapSize..]);
        SeedWithOverlap(lastChunk, current, overlap);
        current := current + overlap + " ";
      } else {
        SeedWithoutOverlap(lastChunk);
      }
    } else {
      SeedWithoutOverlap(lastChunk);
    }
  }

  /** A chunk with more than `OverlapSize` words seeds the builder with its last words. */
  lemma SeedWithOverlap(lastChunk: string, current: string, overlap: string)
    requires current == [] && |Fields(lastChunk)| > OverlapSize
    requires overlap == Join(Fields(lastChunk)[|Fields(lastChunk)| - OverlapSize..])
    ensures current + overlap + " " == Spaced(Overlap(lastChunk))
  {
    SpacedJoin(Overlap(lastChunk));
    assert current + overlap == overlap;
  }

  /** A chunk with no more than `OverlapSize` words seeds nothing. */
  lemma SeedWithoutOverlap(lastChunk: string)
    requires lastChunk == [] || |Fields(lastChunk)| <= OverlapSize
    ensures Spaced(Overlap(lastChunk)) == []
  {
    if lastChunk == [] {
      FieldsOfSpaces(lastChunk);
    }
    SpacedEmpty(Overlap(lastChunk));
  }

  lemma PackedSnoc(seed: seq<string>, group: seq<string>, s: string)
    requires Packed(seed, group)
    requires group != [] ==> !Closes(|Spaced(seed + group)|, s)
    ensures Packed(seed, group + [s])
  {
    var g := group + [s];
    forall j | 0 < j < |g| ensures FitsAt(seed, g, j) {
      if j < |group| {
        assert g[..j] == group[..j];
        assert FitsAt(seed, group, j);
      } else {
        assert g[..j] == group;
      }
    }
  }

  /** Closing the builder extends the plan by one chunk and one group. */
  lemma CloseStep(groups: seq<seq<string>>, chunks: seq<string>, open: seq<string>, current: string)
    requires PlanSoFar(groups, chunks)
    requires open != [] && Pending(groups, chunks, open)
    requires Packed(Seed(chunks, |chunks|), open)
    requires current == Spaced(Seed(chunks, |chunks|) + open)
    ensures PlanSoFar(groups + [open], chunks + [Trim(current)])
    ensures Seed(chunks + [Trim(current)], |chunks|) == Seed(chunks, |chunks|)
  {
    CloseStepChunks(groups, chunks, open, current);
    CloseStepClosed(groups, chunks, open, current);
  }

  lemma CloseStepChunks(groups: seq<seq<string>>, chunks: seq<string>, open: seq<string>, current: string)
    requires PlanSoFar(groups, chunks)
    requires open != [] && Packed(Seed(chunks, |chunks|), open)
    requires current == Spaced(Seed(chunks, |chunks|) + open)
    ensures forall k :: 0 <= k <= |chunks| ==> ChunkAt(groups + [open], chunks + [Trim(current)], k)
  {
    var g := groups + [open];
    var c := chunks + [Trim(current)];
    forall k | 0 <= k < |c| ensures ChunkAt(g, c, k) {
      assert Seed(c, k) == Seed(chunks, k);
      if k < |chunks| {
        assert ChunkAt(groups, chunks, k);
      }
    }
  }

  lemma CloseStepClosed(groups: seq<seq<string>>, chunks: seq<string>, open: seq<string>, current: string)
    requires PlanSoFar(groups, chunks)
    requires open != [] && Pending(groups, chunks, open)
    ensures forall k :: 0 < k <= |chunks| ==> ClosedBefore(chunks + [Trim(current)], groups + [open], k)
  {
    var g := groups + [open];
    var c := chunks + [Trim(current)];
    forall k | 0 < k < |chunks| ensures ClosedBefore(c, g, k) {
      ClosedBeforeSnoc(groups, chunks, open, Trim(current), k);
    }
    if chunks != [] {
      ClosedBeforeLast(groups, chunks, open, Trim(current));
    }
  }

  lemma ClosedBeforeSnoc(groups: seq<seq<string>>, chunks: seq<string>, open: seq<string>, chunk: string, k: nat)
    requires |groups| == |chunks| && 0 < k < |chunks| && ClosedBefore(chunks, groups, k)
    ensures ClosedBefore(chunks + [chunk], groups + [open], k)
  {
    var g := groups + [open];
    var c := chunks + [chunk];
    assert Seed(c, k - 1) == Seed(chunks, k - 1);
    assert g[k] == groups[k] && g[k - 1] == groups[k - 1];
  }

  lemma ClosedBeforeLast(groups: seq<seq<string>>, chunks: seq<string>, open: seq<string>, chunk: string)
    requires |groups| == |chunks| && chunks != [] && open != [] && Pending(groups, chunks, open)
    ensures ClosedBefore(chunks + [chunk], groups + [open], |chunks|)
  {
    var g := groups + [open];
    var c := chunks + [chunk];
    var n := |chunks|;
    assert Seed(c, n - 1) == Seed(chunks, n - 1);
    assert g[n] == open && g[n - 1] == groups[n - 1];
  }

  /** The loop's invariant after the first `i` sentences: the closed chunks and their groups
      are a plan so far; the open group holds the sentences since; the builder holds the seed
      of the next chunk and the open group; no close was due inside the open group; and the
      last close was due to the open group's first sentence. */
  predicate Packing(sentences: seq<string>, i: nat, groups: seq<seq<string>>, chunks: seq<string>,
                    open: seq<string>, current: string)
  {
    && i <= |sentences|
    && PlanSoFar(groups, chunks)
    && Flatten(groups) + open == sentences[..i]
    && (i == 0 ==> chunks == [] && open == [])
    && (i > 0 ==> open != [])
    && Pending(groups, chunks, open)
    && Packed(Seed(chunks, |chunks|), open)
    && current == Spaced(Seed(chunks, |chunks|) + open)
  }

  lemma PackingStart(sentences: seq<string>)
    ensures Packing(sentences, 0, [], [], [], "")
  {
  }

  lemma SliceNext(sentences: seq<string>, i: nat)
    requires i < |sentences|
    ensures sentences[..i + 1] == sentences[..i] + [sentences[i]]
  {
  }

  /** A sentence that does not fire the close rule joins the open group. */
  lemma AppendNext(sentences: seq<string>, i: nat, groups: seq<seq<string>>, chunks: seq<string>,
                   open: seq<string>, current: string)
    requires i < |sentences| && Packing(sentences, i, groups, chunks, open, current)
    requires !Closes(|current|, sentences[i])
    ensures Packing(sentences, i + 1, groups, chunks, open + [sentences[i]], current + sentences[i] + " ")
  {
    var seed := Seed(chunks, |chunks|);
    PackedSnoc(seed, open, sentences[i]);
    SpacedSnoc(seed + open, sentences[i]);
    assert seed + open + [sentences[i]] == seed + (open + [sentences[i]]);
    SliceNext(sentences, i);
  }

  /** A sentence that fires the close rule closes the builder as a chunk, and opens the next
      group; the builder is then the overlap of the closed chunk followed by the sentence. */
  lemma CloseNext(sentences: seq<string>, i: nat, groups: seq<seq<string>>, chunks: seq<string>,
                  open: seq<string>, closing: string, current: string)
    requires i < |sentences| && Packing(sentences, i, groups, chunks, open, closing)
    requires Closes(|closing|, sentences[i])
    requires current == Spaced(Overlap(Trim(closing)))
    ensures Packing(sentences, i + 1, groups + [open], chunks + [Trim(closing)], [] + [sentences[i]],
                    current + sentences[i] + " ")
  {
    var s := sentences[i];
    SpacedEmpty(Seed(chunks, |chunks|) + open);
    assert [] + [s] == [s];
    CloseStep(groups, chunks, open, closing);
    FlattenSnoc(groups, open);
    SliceNext(sentences, i);
    var c := chunks + [Trim(closing)];
    assert Seed(c, |c|) == Overlap(Trim(closing));
    SpacedSnoc(Overlap(Trim(closing)), s);
  }

  /** When the sentences run out, a non-empty builder becomes the last chunk. */
  lemma PackingDone(sentences: seq<string>, groups: seq<seq<string>>, chunks: seq<string>,
                    open: seq<string>, current: string)
    requires Packing(sentences, |sentences|, groups, chunks, open, current)
    ensures |current| > 0 ==> IsPlan(sentences, groups + [open], chunks + [Trim(current)])
    ensures |current| == 0 ==> IsPlan(sentences, groups, chunks)
  {
    assert sentences[..|sentences|] == sentences;
    SpacedEmpty(Seed(chunks, |chunks|) + open);
    if |current| > 0 {
      CloseStep(groups, chunks, open, current);
      FlattenSnoc(groups, open);
    }
  }

  /** `splitContent`: collapses whitespace (line 152), splits into sentences, and packs
      them. The ghost `groups` records which sentences went into which chunk. */
  method SplitContent(content: string) returns (chunks: seq<string>, ghost groups: seq<seq<string>>)
    ensures IsPlan(SentencesOf(Normalize(content)), groups, chunks)
    ensures chunks == [] <==> AllSpace(content)
    ensures forall k :: 0 <= k < |chunks| ==> Tight(chunks[k]) && Normalized(chunks[k])
    ensures forall k :: 0 <= k < |chunks| - 1 ==> |chunks[k]| >= MinChunkSize - 1
    ensures Visible(Join(Stripped(chunks))) == Visible(content)
  {
    var normalized := Join(Fields(content));
    var sentences := SplitIntoSentences(normalized);
    chunks, groups := PackSentences(sentences);
    SplitContentChunks(content, groups, chunks);
  }

  /** The packing loop of `splitContent` over the sentences it has split. */
  method PackSentences(sentences: seq<string>) returns (chunks: seq<string>, ghost groups: seq<seq<string>>)
    ensures IsPlan(sentences, groups, chunks)
  {
    chunks := [];
    groups := [];
    var current := "";
    ghost var open: seq<string> := [];
    PackingStart(sentences);
    for i := 0 to |sentences|
      invariant Packing(sentences, i, groups, chunks, open, current)
    {
      var sentence := sentences[i];
      if |current| + |sentence| > MaxChunkSize && |current| >= MinChunkSize {
        ghost var closing := current;
        ghost var (groups0, chunks0, open0) := (groups, chunks, open);
        chunks := chunks + [Trim(current)];
        groups := groups + [open];
        open := [];
        // start the new chunk with the overlap from the previous one
        current := SeedBuilder(chunks[|chunks| - 1]);
        CloseNext(sentences, i, groups0, chunks0, open0, closing, current);
      } else {
        AppendNext(sentences, i, groups, chunks, open, current);
      }
      current := current + sentence + " ";
      open := open + [sentence];
    }
    PackingDone(sentences, groups, chunks, open, current);
    if |current| > 0 {
      chunks := chunks + [Trim(current)];
      groups := groups + [open];
    }
  }

  // ---------------------------------------------------------------------------
  // What the plan says about the chunks

  /** Every string is non-empty, trimmed and normalized: true of the sentences of
      normalized text, and of the words `Fields` returns. */
  predicate Clean(ws: seq<string>) {
    forall j :: 0 <= j < |ws| ==> Tight(ws[j]) && Normalized(ws[j])
  }

  lemma CleanAppend(a: seq<string>, b: seq<string>)
    ensures Clean(a + b) <==> Clean(a) && Clean(b)
  {
    if Clean(a) && Clean(b) {
      forall j | 0 <= j < |a + b| ensures Tight((a + b)[j]) && Normalized((a + b)[j]) {
        if j >= |a| { assert (a + b)[j] == b[j - |a|]; }
      }
    }
    if Clean(a + b) {
      forall j | 0 <= j < |a| ensures Tight(a[j]) && Normalized(a[j]) {
        assert (a + b)[j] == a[j];
      }
      forall j | 0 <= j < |b| ensures Tight(b[j]) && Normalized(b[j]) {
        assert (a + b)[|a| + j] == b[j];
      }
    }
  }

  /** The words of a chunk, and so its overlap, are clean. */
  lemma OverlapClean(chunk: string)
    ensures Clean(Overlap(chunk))
  {
    var words := Fields(chunk);
    FieldsAreWords(chunk);
    forall j | 0 <= j < |words| ensures Tight(words[j]) && Normalized(words[j]) {
      assert words[j] != [] && NoSpace(words[j]);
    }
  }

  /** Every group of a plan over clean sentences is clean. */
  lemma {:induction false} FlattenClean(groups: seq<seq<string>>, n: nat)
    requires n <= |groups| && Clean(FlattenUpTo(groups, n))
    ensures forall k :: 0 <= k < n ==> Clean(groups[k])
  {
    if n > 0 {
      CleanAppend(FlattenUpTo(groups, n - 1), groups[n - 1]);
      FlattenClean(groups, n - 1);
    }
  }

  /** A chunk built from clean strings is those strings joined by single spaces; it is
      trimmed and normalized, and one byte shorter than the builder it came from. */
  lemma ChunkText(seed: seq<string>, group: seq<string>, chunk: string)
    requires ChunkFrom(seed, group, chunk)
    requires Clean(seed) && Clean(group)
    ensures chunk == Join(seed + group)
    ensures Tight(chunk) && Normalized(chunk)
    ensures |Spaced(seed + group)| == |chunk| + 1
  {
    var ws := seed + group;
    CleanAppend(seed, group);
    SpacedJoin(ws);
    JoinNormalized(ws);
    TrimTrailingSpace(Join(ws));
  }

  /** The text a chunk carries into the next one: its overlap joined by spaces, and a space. */
  function Carry(chunk: string): string {
    if Overlap(chunk) == [] then "" else Join(Overlap(chunk)) + " "
  }

  /** What chunk `k` starts with: nothing for the first chunk, the carry of the one before. */
  function CarryInto(chunks: seq<string>, k: nat): string
    requires k <= |chunks|
  {
    if k == 0 then "" else Carry(chunks[k - 1])
  }

  /** The carried text is exactly the last `OverlapSize` words of the chunk, when it has
      strictly more than `OverlapSize` words, and nothing at all otherwise. */
  lemma CarryWords(chunk: string)
    ensures |Fields(chunk)| > OverlapSize ==>
      Fields(Carry(chunk)) == Fields(chunk)[|Fields(chunk)| - OverlapSize..] && |Fields(Carry(chunk))| == OverlapSize
    ensures |Fields(chunk)| <= OverlapSize ==> Carry(chunk) == ""
  {
    if |Fields(chunk)| > OverlapSize {
      CarryLastWords(chunk);
    }
  }

  lemma CarryLastWords(chunk: string)
    requires |Fields(chunk)| > OverlapSize
    ensures Fields(Carry(chunk)) == Overlap(chunk) && |Overlap(chunk)| == OverlapSize
  {
    var overlap := Overlap(chunk);
    assert |overlap| == OverlapSize;
    assert Carry(chunk) == Join(overlap) + " ";
    OverlapWords(chunk);
    FieldsOfJoinSpace(overlap);
  }

  /** The overlap consists of words. */
  lemma OverlapWords(chunk: string)
    ensures forall k :: 0 <= k < |Overlap(chunk)| ==> Overlap(chunk)[k] != [] && NoSpace(Overlap(chunk)[k])
  {
    var words := Fields(chunk);
    FieldsAreWords(chunk);
    if |words| > OverlapSize {
      forall k | 0 <= k < OverlapSize
        ensures Overlap(chunk)[k] != [] && NoSpace(Overlap(chunk)[k])
      {
        assert Overlap(chunk)[k] == words[|words| - OverlapSize + k];
      }
    }
  }

  /** Chunk `k` is the carry of chunk `k - 1` followed by its own group's sentences joined
      by single spaces. */
  lemma ChunkWithCarry(chunks: seq<string>, groups: seq<seq<string>>, k: nat)
    requires PlanSoFar(groups, chunks) && k < |chunks| && Clean(groups[k])
    ensures chunks[k] == CarryInto(chunks, k) + Join(groups[k])
    ensures Tight(chunks[k]) && Normalized(chunks[k])
  {
    var seed := Seed(chunks, k);
    assert ChunkAt(groups, chunks, k);
    if k > 0 { OverlapClean(chunks[k - 1]); }
    ChunkText(seed, groups[k], chunks[k]);
    if seed == [] {
      assert seed + groups[k] == groups[k];
    } else {
      JoinAppend(seed, groups[k]);
    }
  }

  /** The chunks with their carried text removed. */
  function Stripped(chunks: seq<string>): seq<string> {
    seq(|chunks|, k requires 0 <= k < |chunks| =>
      var c := CarryInto(chunks, k);
      if |c| <= |chunks[k]| then chunks[k][|c|..] else chunks[k])
  }

  /** The groups, each joined by single spaces, and those joined again by single spaces,
      are all the sentences joined by single spaces. */
  lemma {:induction false} JoinFlatten(groups: seq<seq<string>>, joined: seq<string>, n: nat)
    requires n <= |groups| == |joined|
    requires forall k :: 0 <= k < n ==> groups[k] != [] && joined[k] == Join(groups[k])
    ensures Join(FlattenUpTo(groups, n)) == Join(joined[..n])
    decreases n, 1
  {
    if n == 0 {
      assert joined[..0] == [];
    } else if n == 1 {
      assert FlattenUpTo(groups, 1) == [] + groups[0];
      assert [] + groups[0] == groups[0];
      assert joined[..1] == [joined[0]];
    } else {
      JoinFlattenStep(groups, joined, n);
    }
  }

  lemma {:induction false} JoinFlattenStep(groups: seq<seq<string>>, joined: seq<string>, n: nat)
    requires 1 < n <= |groups| == |joined|
    requires forall k :: 0 <= k < n ==> groups[k] != [] && joined[k] == Join(groups[k])
    ensures Join(FlattenUpTo(groups, n)) == Join(joined[..n])
    decreases n, 0
  {
    var init := FlattenUpTo(groups, n - 1);
    JoinFlatten(groups, joined, n - 1);
    FlattenNonEmpty(groups, n - 1);
    JoinAppend(init, groups[n - 1]);
    JoinSnoc(joined[..n - 1], joined[n - 1]);
    assert joined[..n - 1] + [joined[n - 1]] == joined[..n];
  }

  lemma JoinSnoc(ws: seq<string>, w: string)
    requires ws != []
    ensures Join(ws + [w]) == Join(ws) + " " + w
  {
    assert (ws + [w])[..|ws|] == ws;
  }

  lemma {:induction false} FlattenNonEmpty(groups: seq<seq<string>>, n: nat)
    requires 0 < n <= |groups| && groups[n - 1] != []
    ensures FlattenUpTo(groups, n) != []
  {
  }

  /** The groups of a plan are its chunks with the carried text stripped. */
  lemma StrippedGroups(sentences: seq<string>, groups: seq<seq<string>>, chunks: seq<string>)
    requires IsPlan(sentences, groups, chunks) && Clean(sentences)
    ensures |Stripped(chunks)| == |groups|
    ensures forall k :: 0 <= k < |chunks| ==>
      Stripped(chunks)[k] == Join(groups[k]) && chunks[k] == CarryInto(chunks, k) + Stripped(chunks)[k]
  {
    FlattenClean(groups, |groups|);
    forall k | 0 <= k < |chunks|
      ensures Stripped(chunks)[k] == Join(groups[k]) && chunks[k] == CarryInto(chunks, k) + Stripped(chunks)[k]
    {
      ChunkWithCarry(chunks, groups, k);
      var c := CarryInto(chunks, k);
      assert chunks[k][|c|..] == Join(groups[k]);
    }
  }

  /** Sentences are never divided: stripping each chunk of its carried text and joining
      the results with single spaces gives back all the sentences, in order, joined by
      single spaces. */
  lemma PlanKeepsSentences(sentences: seq<string>, groups: seq<seq<string>>, chunks: seq<string>)
    requires IsPlan(sentences, groups, chunks) && Clean(sentences)
    ensures Join(Stripped(chunks)) == Join(sentences)
  {
    StrippedGroups(sentences, groups, chunks);
    var joined := Stripped(chunks);
    forall k | 0 <= k < |groups| ensures groups[k] != [] {
      assert ChunkAt(groups, chunks, k);
    }
    JoinFlatten(groups, joined, |groups|);
    assert joined[..|groups|] == joined;
  }

  /** A plan has no chunk exactly when there is no sentence. */
  lemma PlanEmpty(sentences: seq<string>, groups: seq<seq<string>>, chunks: seq<string>)
    requires IsPlan(sentences, groups, chunks)
    ensures chunks == [] <==> sentences == []
  {
    if chunks != [] {
      assert ChunkAt(groups, chunks, |chunks| - 1);
      FlattenNonEmpty(groups, |groups|);
    }
  }

  /** Every chunk of a plan over clean sentences is trimmed and normalized, and every chunk
      but the last has at least `MinChunkSize - 1` bytes (its builder had at least
      `MinChunkSize`, one of them the trailing space). */
  lemma PlanChunkShape(sentences: seq<string>, groups: seq<seq<string>>, chunks: seq<string>)
    requires IsPlan(sentences, groups, chunks) && Clean(sentences)
    ensures forall k :: 0 <= k < |chunks| ==> Tight(chunks[k]) && Normalized(chunks[k])
    ensures forall k :: 0 <= k < |chunks| - 1 ==> |chunks[k]| >= MinChunkSize - 1
  {
    FlattenClean(groups, |groups|);
    forall k | 0 <= k < |chunks| ensures Tight(chunks[k]) && Normalized(chunks[k]) {
      ChunkWithCarry(chunks, groups, k);
    }
    forall k | 0 <= k < |chunks| - 1 ensures |chunks[k]| >= MinChunkSize - 1 {
      BuilderLength(chunks, groups, k);
      assert ClosedBefore(chunks, groups, k + 1);
    }
  }

  lemma {:induction false} SpacedAppend(a: seq<string>, b: seq<string>)
    ensures Spaced(a + b) == Spaced(a) + Spaced(b)
    decreases |b|
  {
    if b == [] {
      assert a + b == a;
    } else {
      var init, w := b[..|b| - 1], b[|b| - 1];
      assert a + b == (a + init) + [w];
      assert b == init + [w];
      SpacedAppend(a, init);
      SpacedSnoc(a + init, w);
      SpacedSnoc(init, w);
    }
  }

  /** The builder of chunk `k`, after it has taken the sentences `ws`, holds the carry of
      the chunk before and then each sentence followed by a space. */
  lemma BuilderAt(chunks: seq<string>, k: nat, ws: seq<string>)
    requires k < |chunks|
    ensures Spaced(Seed(chunks, k) + ws) == CarryInto(chunks, k) + Spaced(ws)
  {
    SpacedAppend(Seed(chunks, k), ws);
    if k > 0 && Overlap(chunks[k - 1]) != [] {
      SpacedJoin(Overlap(chunks[k - 1]));
    }
  }

  /** The close rule, stated on the chunks: inside a chunk's group no sentence made the
      builder (the carried text and the sentences so far, each with its space) reach past
      `MaxChunkSize` while it held `MinChunkSize` bytes, and the first sentence after every
      chunk but the last did, the builder then holding the chunk and its trailing space. */
  lemma PlanCloseRule(sentences: seq<string>, groups: seq<seq<string>>, chunks: seq<string>)
    requires IsPlan(sentences, groups, chunks) && Clean(sentences)
    ensures forall k, j :: 0 <= k < |chunks| && 0 < j < |groups[k]| ==>
      !Closes(|CarryInto(chunks, k)| + |Spaced(groups[k][..j])|, groups[k][j])
    ensures forall k :: 0 < k < |chunks| ==>
      groups[k] != [] && Closes(|chunks[k - 1]| + 1, groups[k][0])
  {
    forall k, j | 0 <= k < |chunks| && 0 < j < |groups[k]|
      ensures !Closes(|CarryInto(chunks, k)| + |Spaced(groups[k][..j])|, groups[k][j])
    {
      assert ChunkAt(groups, chunks, k);
      assert FitsAt(Seed(chunks, k), groups[k], j);
      BuilderAt(chunks, k, groups[k][..j]);
    }
    FlattenClean(groups, |groups|);
    forall k | 0 < k < |chunks|
      ensures groups[k] != [] && Closes(|chunks[k - 1]| + 1, groups[k][0])
    {
      ClosedAfter(groups, chunks, k);
    }
  }

  lemma ClosedAfter(groups: seq<seq<string>>, chunks: seq<string>, k: nat)
    requires PlanSoFar(groups, chunks) && 0 < k < |chunks| && Clean(groups[k - 1])
    ensures groups[k] != [] && Closes(|chunks[k - 1]| + 1, groups[k][0])
  {
    assert ClosedBefore(chunks, groups, k);
    BuilderLength(chunks, groups, k - 1);
  }

  /** The builder that held chunk `k` held one byte more than the chunk: its trailing space. */
  lemma BuilderLength(chunks: seq<string>, groups: seq<seq<string>>, k: nat)
    requires PlanSoFar(groups, chunks) && k < |chunks| && Clean(groups[k])
    ensures |Spaced(Seed(chunks, k) + groups[k])| == |chunks[k]| + 1
  {
    assert ChunkAt(groups, chunks, k);
    if k > 0 { OverlapClean(chunks[k - 1]); }
    ChunkText(Seed(chunks, k), groups[k], chunks[k]);
  }

  /** What `splitContent` promises about its chunks, stated on the chunks alone:
      - there are none exactly when the content is empty or all whitespace;
      - each is trimmed and has single spaces only (no runs of whitespace);
      - each but the last has at least `MinChunkSize - 1` bytes;
      - each is the text carried from the chunk before it followed by its own sentences;
      - with the carried text stripped, the chunks joined by single spaces are the sentences
        joined by single spaces, and hold exactly the visible bytes of the content, in order. */
  lemma SplitContentChunks(content: string, groups: seq<seq<string>>, chunks: seq<string>)
    requires IsPlan(SentencesOf(Normalize(content)), groups, chunks)
    ensures chunks == [] <==> AllSpace(content)
    ensures forall k :: 0 <= k < |chunks| ==> Tight(chunks[k]) && Normalized(chunks[k])
    ensures forall k :: 0 <= k < |chunks| - 1 ==> |chunks[k]| >= MinChunkSize - 1
    ensures |Stripped(chunks)| == |chunks|
    ensures forall k :: 0 <= k < |chunks| ==> chunks[k] == CarryInto(chunks, k) + Stripped(chunks)[k]
    ensures Join(Stripped(chunks)) == Join(SentencesOf(Normalize(content)))
    ensures Visible(Join(Stripped(chunks))) == Visible(content)
  {
    var text := Normalize(content);
    var sentences := SentencesOf(text);
    NormalizeNormalized(content);
    SentencesEmpty(text);
    NormalizedAllSpace(text);
    SentencesTight(text, 0);
    SentencesNormalized(text);
    PlanEmpty(sentences, groups, chunks);
    PlanChunkShape(sentences, groups, chunks);
    StrippedGroups(sentences, groups, chunks);
    PlanKeepsSentences(sentences, groups, chunks);
    VisibleJoin(sentences);
    SentencesVisible(text, 0);
    assert text[0..] == text;
    VisibleNormalize(content);
  }

  // ---------------------------------------------------------------------------
  // The plan is determined by the sentences

  lemma {:induction false} FlattenGrows(groups: seq<seq<string>>, n: nat, m: nat)
    requires n <= m <= |groups|
    ensures FlattenUpTo(groups, n) <= FlattenUpTo(groups, m)
    decreases m - n
  {
    if n < m {
      FlattenGrows(groups, n, m - 1);
    }
  }

  /** Group `k` is the run of sentences after the first `k` groups. */
  lemma GroupSlice(sentences: seq<string>, groups: seq<seq<string>>, k: nat)
    requires Flatten(groups) == sentences && k < |groups|
    ensures var p := |FlattenUpTo(groups, k)|;
      && p + |groups[k]| == |FlattenUpTo(groups, k + 1)| <= |sentences|
      && sentences[..p] == FlattenUpTo(groups, k)
      && sentences[p..p + |groups[k]|] == groups[k]
  {
    var p := FlattenUpTo(groups, k);
    var q := FlattenUpTo(groups, k + 1);
    assert q == p + groups[k];
    FlattenGrows(groups, k + 1, |groups|);
    assert sentences[..|p|] == p;
    assert sentences[|p|..|p| + |groups[k]|] == groups[k];
  }

  /** Group `k` of a plan sits at offset `p` in the sentences; no close is due inside it; a
      close is due just after it unless the sentences end there, which happens only after
      the last group. */
  lemma GroupAt(sentences: seq<string>, groups: seq<seq<string>>, chunks: seq<string>, k: nat)
    requires IsPlan(sentences, groups, chunks) && k < |groups|
    ensures |FlattenUpTo(groups, k)| + |groups[k]| <= |sentences|
    ensures sentences[|FlattenUpTo(groups, k)|..|FlattenUpTo(groups, k)| + |groups[k]|] == groups[k]
    ensures groups[k] != [] && Packed(Seed(chunks, k), groups[k])
    ensures |FlattenUpTo(groups, k)| + |groups[k]| == |sentences| <==> k == |groups| - 1
    ensures k < |groups| - 1 ==>
      Closes(|Spaced(Seed(chunks, k) + groups[k])|, sentences[|FlattenUpTo(groups, k)| + |groups[k]|])
  {
    GroupSlice(sentences, groups, k);
    GroupChunk(groups, chunks, k);
    if k < |groups| - 1 {
      GroupCloses(sentences, groups, chunks, k);
    } else {
      GroupLast(sentences, groups, k);
    }
  }

  lemma GroupChunk(groups: seq<seq<string>>, chunks: seq<string>, k: nat)
    requires PlanSoFar(groups, chunks) && k < |groups|
    ensures groups[k] != [] && Packed(Seed(chunks, k), groups[k])
  {
    assert ChunkAt(groups, chunks, k);
  }

  /** After every group but the last, a close is due at the next sentence. */
  lemma GroupCloses(sentences: seq<string>, groups: seq<seq<string>>, chunks: seq<string>, k: nat)
    requires IsPlan(sentences, groups, chunks) && k + 1 < |groups|
    ensures |FlattenUpTo(groups, k)| + |groups[k]| < |sentences|
    ensures Closes(|Spaced(Seed(chunks, k) + groups[k])|, sentences[|FlattenUpTo(groups, k)| + |groups[k]|])
  {
    assert ClosedBefore(chunks, groups, k + 1);
    GroupFollows(sentences, groups, k);
  }

  lemma GroupLast(sentences: seq<string>, groups: seq<seq<string>>, k: nat)
    requires Flatten(groups) == sentences && k + 1 == |groups|
    ensures |FlattenUpTo(groups, k)| + |groups[k]| == |sentences|
  {
    assert FlattenUpTo(groups, k + 1) == FlattenUpTo(groups, k) + groups[k];
  }

  /** Sentence `i` of group `k` sits at offset `i` after the first `k` groups. */
  lemma GroupElem(sentences: seq<string>, groups: seq<seq<string>>, k: nat, i: nat)
    requires Flatten(groups) == sentences && k < |groups| && i < |groups[k]|
    ensures |FlattenUpTo(groups, k)| + i < |sentences|
    ensures sentences[|FlattenUpTo(groups, k)| + i] == groups[k][i]
  {
    var q := FlattenUpTo(groups, k + 1);
    assert q == FlattenUpTo(groups, k) + groups[k];
    FlattenGrows(groups, k + 1, |groups|);
    assert q[|FlattenUpTo(groups, k)| + i] == groups[k][i];
  }

  /** The sentence after group `k` is the first of group `k + 1`. */
  lemma GroupFollows(sentences: seq<string>, groups: seq<seq<string>>, k: nat)
    requires Flatten(groups) == sentences && k + 1 < |groups| && groups[k + 1] != []
    ensures |FlattenUpTo(groups, k)| + |groups[k]| < |sentences|
    ensures sentences[|FlattenUpTo(groups, k)| + |groups[k]|] == groups[k + 1][0]
  {
    GroupElem(sentences, groups, k + 1, 0);
    assert FlattenUpTo(groups, k + 1) == FlattenUpTo(groups, k) + groups[k];
  }

  /** Sentences left over after `k` groups belong to a further group. */
  lemma MoreGroups(sentences: seq<string>, groups: seq<seq<string>>, chunks: seq<string>, k: nat)
    requires IsPlan(sentences, groups, chunks) && k <= |groups|
    requires |FlattenUpTo(groups, k)| < |sentences|
    ensures k < |groups|
  {
  }

  /** Two plans of the same sentences that agree on their first `k` groups and chunks agree
      on group and chunk `k` too. */
  lemma PlanStep(sentences: seq<string>, g1: seq<seq<string>>, c1: seq<string>,
                 g2: seq<seq<string>>, c2: seq<string>, k: nat)
    requires IsPlan(sentences, g1, c1) && IsPlan(sentences, g2, c2)
    requires k < |g1| && k <= |g2| && g1[..k] == g2[..k] && c1[..k] == c2[..k]
    ensures k < |g2| && g1[k] == g2[k] && c1[k] == c2[k]
  {
    FlattenUpToPrefix(g1, g2, k);
    GroupAt(sentences, g1, c1, k);
    MoreGroups(sentences, g2, c2, k);
    GroupAt(sentences, g2, c2, k);
    SameSeed(c1, c2, k);
    SameGroup(sentences, |FlattenUpTo(g1, k)|, Seed(c1, k), g1[k], g2[k]);
    SameChunk(g1, c1, g2, c2, k);
  }

  /** Two packed groups that start at the same sentence after the same seed and each run
      up to a due close or to the end are the same group: where the shorter one stops a
      close is due, and inside the longer one none is. */
  lemma SameGroup(sentences: seq<string>, p: nat, seed: seq<string>, g: seq<string>, h: seq<string>)
    requires p + |g| <= |sentences| && p + |h| <= |sentences|
    requires sentences[p..p + |g|] == g && sentences[p..p + |h|] == h
    requires g != [] && h != [] && Packed(seed, g) && Packed(seed, h)
    requires p + |g| < |sentences| ==> Closes(|Spaced(seed + g)|, sentences[p + |g|])
    requires p + |h| < |sentences| ==> Closes(|Spaced(seed + h)|, sentences[p + |h|])
    ensures g == h
  {
    if |g| < |h| {
      PrefixFits(sentences, p, seed, g, h);
      assert false;
    }
    if |h| < |g| {
      PrefixFits(sentences, p, seed, h, g);
      assert false;
    }
  }

  /** The same seed and group give the same chunk. */
  lemma SameChunk(g1: seq<seq<string>>, c1: seq<string>, g2: seq<seq<string>>, c2: seq<string>, k: nat)
    requires PlanSoFar(g1, c1) && PlanSoFar(g2, c2) && k < |g1| && k < |g2|
    requires g1[k] == g2[k] && Seed(c1, k) == Seed(c2, k)
    ensures c1[k] == c2[k]
  {
    assert ChunkAt(g1, c1, k) && ChunkAt(g2, c2, k);
  }

  lemma SameSeed(c1: seq<string>, c2: seq<string>, k: nat)
    requires k <= |c1| && k <= |c2| && c1[..k] == c2[..k]
    ensures Seed(c1, k) == Seed(c2, k)
  {
    if k > 0 {
      assert c1[k - 1] == c1[..k][k - 1];
    }
  }

  /** A group that is a proper prefix of another packed group ends where no close is due. */
  lemma PrefixFits(sentences: seq<string>, p: nat, seed: seq<string>, g: seq<string>, h: seq<string>)
    requires |g| < |h| && p + |h| <= |sentences|
    requires sentences[p..p + |g|] == g && sentences[p..p + |h|] == h
    requires Packed(seed, h) && g != []
    ensures !Closes(|Spaced(seed + g)|, sentences[p + |g|])
  {
    assert h[..|g|] == sentences[p..p + |g|];
    assert FitsAt(seed, h, |g|);
    assert h[|g|] == sentences[p + |g|];
  }

  /** `IsPlan` is a specification of one outcome: the sentences determine the groups and
      the chunks. */
  lemma PlanUnique(sentences: seq<string>, g1: seq<seq<string>>, c1: seq<string>,
                   g2: seq<seq<string>>, c2: seq<string>)
    requires IsPlan(sentences, g1, c1) && IsPlan(sentences, g2, c2)
    ensures g1 == g2 && c1 == c2
  {
    var k := 0;
    while k < |g1|
      invariant k <= |g1| && k <= |g2| && g1[..k] == g2[..k] && c1[..k] == c2[..k]
    {
      PlanStep(sentences, g1, c1, g2, c2, k);
      assert g1[..k + 1] == g1[..k] + [g1[k]] && g2[..k + 1] == g2[..k] + [g2[k]];
      assert c1[..k + 1] == c1[..k] + [c1[k]] && c2[..k + 1] == c2[..k] + [c2[k]];
      k := k + 1;
    }
    FlattenUpToPrefix(g1, g2, k);
    assert g1[..k] == g1 && c1[..k] == c1;
    if k < |g2| {
      GroupAt(sentences, g2, c2, k);
    }
    assert |g2| == k;
    assert g2[..k] == g2 && c2[..k] == c2;
  }
}

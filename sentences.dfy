/** The sentence splitter `splitIntoSentences`: a byte scanner that ends a sentence at
    a terminal character ('.', '!' or '?') unless the next byte is terminal too, and
    trims what it has collected.

    `SentencesOf` is the specification: the text is cut after every boundary (a
    terminal byte not followed by another terminal byte) and each piece is trimmed,
    a blank last piece being dropped. `SegmentsFrom` is the same cut stated on its
    own, without trimming, and `SentencesAreTrimmedSegments` ties the two together.

    `SnocAssoc` and `SliceExtend` model nothing in the splitter: they state one
    identity about sequences each, apart from any function, to keep the proofs that
    call them cheap for the verifier. */
module Sentences {
  import opened Strings

  /** `SentenceEndings`. */
  predicate IsTerminal(c: char) {
    c == '.' || c == '!' || c == '?'
  }

  /** Ends in '.', '!' or '?'. */
  predicate EndsTerminal(s: string) {
    s != [] && IsTerminal(Last(s))
  }

  lemma TerminalIsVisible(c: char)
    ensures IsTerminal(c) ==> !IsSpace(c)
  {
  }

  /** The scanner emits a sentence after index `i` exactly here: a terminal byte whose
      lookahead is not terminal (or that is the last byte). */
  predicate IsBoundary(text: string, i: nat)
    requires i < |text|
  {
    IsTerminal(text[i]) && !(i + 1 < |text| && IsTerminal(text[i + 1]))
  }

  /** The first boundary at or after `from`, or |text| if there is none. */
  function NextBoundary(text: string, from: nat): (k: nat)
    requires from <= |text|
    ensures from <= k <= |text|
    ensures forall j :: from <= j < k ==> !IsBoundary(text, j)
    ensures k < |text| ==> IsBoundary(text, k)
    decreases |text| - from
  {
    if from == |text| then from
    else if IsBoundary(text, from) then from
    else NextBoundary(text, from + 1)
  }

  /** The pieces of `text[from..]` between boundaries, each boundary ending its piece. */
  function SegmentsFrom(text: string, from: nat): (segs: seq<string>)
    requires from <= |text|
    ensures forall k :: 0 <= k < |segs| ==> segs[k] != []
    decreases |text| - from
  {
    if from == |text| then []
    else
      var k := NextBoundary(text, from);
      if k == |text| then [text[from..]]
      else [text[from..k + 1]] + SegmentsFrom(text, k + 1)
  }

  /** Piece `a` is followed by piece `b` only where a terminal byte meets a non-terminal one. */
  predicate Cut(a: string, b: string) {
    a != [] && b != [] && IsTerminal(Last(a)) && !IsTerminal(b[0])
  }

  /** Inside a piece, every terminal byte but the last byte is followed by another terminal byte. */
  predicate Uncut(seg: string) {
    forall j :: 0 <= j < |seg| - 1 ==> RunGoesOn(seg, j)
  }

  /** A terminal byte at `j` is followed by another terminal byte. */
  predicate RunGoesOn(seg: string, j: nat)
    requires j + 1 < |seg|
  {
    IsTerminal(seg[j]) ==> IsTerminal(seg[j + 1])
  }

  /** The pieces concatenate to the text. */
  lemma {:induction false} SegmentsConcat(text: string, from: nat)
    requires from <= |text|
    ensures Concat(SegmentsFrom(text, from)) == text[from..]
    decreases |text| - from
  {
    if from == |text| {
      assert text[from..] == [];
    } else if NextBoundary(text, from) == |text| {
      SegmentsFromEnd(text, from);
      ConcatOne(text[from..]);
    } else {
      var next := NextBoundary(text, from) + 1;
      SegmentsFromStep(text, from, next);
      SegmentsConcat(text, next);
      SliceSplit(text, from, next);
      ConcatStep(text[from..next], SegmentsFrom(text, next), text[next..], text[from..]);
    }
  }

  lemma UncutPiece(text: string, from: nat, to: nat)
    requires from < to <= |text|
    requires forall j :: from <= j < to - 1 ==> !IsBoundary(text, j)
    ensures Uncut(text[from..to])
  {
    var seg := text[from..to];
    forall j | 0 <= j < |seg| - 1 ensures RunGoesOn(seg, j) {
      assert seg[j] == text[from + j] && seg[j + 1] == text[from + j + 1];
      assert !IsBoundary(text, from + j);
    }
  }

  /** The text is cut exactly at its boundaries: between consecutive pieces a terminal byte
      meets a non-terminal one, and no piece holds a boundary before its last byte. */
  lemma {:induction false} SegmentsCut(text: string, from: nat)
    requires from <= |text|
    ensures forall k :: 0 <= k < |SegmentsFrom(text, from)| - 1 ==>
      Cut(SegmentsFrom(text, from)[k], SegmentsFrom(text, from)[k + 1])
    ensures forall k :: 0 <= k < |SegmentsFrom(text, from)| ==> Uncut(SegmentsFrom(text, from)[k])
    decreases |text| - from
  {
    if from < |text| {
      if NextBoundary(text, from) == |text| {
        SegmentsCutEnd(text, from);
      } else {
        var next := NextBoundary(text, from) + 1;
        SegmentsCut(text, next);
        SegmentsCutStep(text, from, next);
      }
    }
  }

  lemma SegmentsCutEnd(text: string, from: nat)
    requires from < |text| && NextBoundary(text, from) == |text|
    ensures SegmentsFrom(text, from) == [text[from..]] && Uncut(text[from..])
  {
    SegmentsFromEnd(text, from);
    UncutPiece(text, from, |text|);
    assert text[from..|text|] == text[from..];
  }

  lemma SegmentsCutStep(text: string, from: nat, next: nat)
    requires from < next <= |text| && next == NextBoundary(text, from) + 1
    requires forall k :: 0 <= k < |SegmentsFrom(text, next)| - 1 ==>
      Cut(SegmentsFrom(text, next)[k], SegmentsFrom(text, next)[k + 1])
    requires forall k :: 0 <= k < |SegmentsFrom(text, next)| ==> Uncut(SegmentsFrom(text, next)[k])
    ensures forall k :: 0 <= k < |SegmentsFrom(text, from)| - 1 ==>
      Cut(SegmentsFrom(text, from)[k], SegmentsFrom(text, from)[k + 1])
    ensures forall k :: 0 <= k < |SegmentsFrom(text, from)| ==> Uncut(SegmentsFrom(text, from)[k])
  {
    SegmentsFromStep(text, from, next);
    UncutPiece(text, from, next);
    PieceLast(text, from, next);
    if next < |text| {
      SegmentsFirst(text, next);
    }
    CutCons(text[from..next], SegmentsFrom(text, next));
  }

  /** The first piece of `text[from..]` starts with the byte at `from`. */
  lemma SegmentsFirst(text: string, from: nat)
    requires from < |text|
    ensures SegmentsFrom(text, from) != [] && SegmentsFrom(text, from)[0] != []
    ensures SegmentsFrom(text, from)[0][0] == text[from]
  {
    if NextBoundary(text, from) == |text| {
      SegmentsFromEnd(text, from);
    } else {
      var next := NextBoundary(text, from) + 1;
      SegmentsFromStep(text, from, next);
    }
  }

  lemma CutCons(piece: string, rest: seq<string>)
    requires piece != [] && Uncut(piece)
    requires rest != [] ==> Cut(piece, rest[0])
    requires forall k :: 0 <= k < |rest| - 1 ==> Cut(rest[k], rest[k + 1])
    requires forall k :: 0 <= k < |rest| ==> Uncut(rest[k])
    ensures forall k :: 0 <= k < |[piece] + rest| - 1 ==> Cut(([piece] + rest)[k], ([piece] + rest)[k + 1])
    ensures forall k :: 0 <= k < |[piece] + rest| ==> Uncut(([piece] + rest)[k])
  {
    var segs := [piece] + rest;
    forall i | 0 <= i < |segs| - 1 ensures Cut(segs[i], segs[i + 1]) {
      if i > 0 { assert segs[i] == rest[i - 1] && segs[i + 1] == rest[i]; }
    }
    forall i | 0 <= i < |segs| ensures Uncut(segs[i]) {
      if i > 0 { assert segs[i] == rest[i - 1]; }
    }
  }

  /** The sentences of `text[from..]`: the trimmed text up to and including each boundary,
      then the trimmed rest if it is not blank. */
  function SentencesFrom(text: string, from: nat): seq<string>
    requires from <= |text|
    decreases |text| - from, 1
  {
    if from == |text| then [] else SentencesFromPiece(text, from, NextBoundary(text, from) + 1)
  }

  /** The sentences of `text[from..]` when the first piece ends before `next`: the trimmed
      piece and the sentences after it, or the last sentence when no boundary is left. */
  function SentencesFromPiece(text: string, from: nat, next: nat): seq<string>
    requires from < next <= |text| + 1
    decreases |text| - from, 0
  {
    if next > |text| then LastSentence(text[from..])
    else [Trim(text[from..next])] + SentencesFrom(text, next)
  }

  /** The text after the last boundary, trimmed, is a sentence unless it is blank. */
  function LastSentence(rest: string): seq<string> {
    if Trim(rest) == [] then [] else [Trim(rest)]
  }

  /** What `splitIntoSentences(text)` returns. */
  function SentencesOf(text: string): seq<string> {
    SentencesFrom(text, 0)
  }

  /** The trims of the pieces, leaving out the blank ones. */
  function NonBlank(segs: seq<string>): seq<string> {
    if segs == [] then []
    else
      var t := Trim(segs[0]);
      (if t == [] then [] else [t]) + NonBlank(segs[1..])
  }

  /** Only the last piece can be blank (every other one ends in a terminal byte), so the
      sentences are exactly the non-blank trimmed pieces. */
  lemma {:induction false} SentencesAreTrimmedSegments(text: string, from: nat)
    requires from <= |text|
    ensures SentencesFrom(text, from) == NonBlank(SegmentsFrom(text, from))
    decreases |text| - from
  {
    if from < |text| {
      if NextBoundary(text, from) == |text| {
        TrimmedSegmentsEnd(text, from);
      } else {
        var next := NextBoundary(text, from) + 1;
        SentencesAreTrimmedSegments(text, next);
        TrimmedSegmentsStep(text, from, next);
      }
    }
  }

  lemma TrimmedSegmentsEnd(text: string, from: nat)
    requires from < |text| && NextBoundary(text, from) == |text|
    ensures SentencesFrom(text, from) == NonBlank(SegmentsFrom(text, from))
  {
    SentencesFromEnd(text, from);
    SegmentsFromEnd(text, from);
    NonBlankOne(text[from..]);
  }

  lemma TrimmedSegmentsStep(text: string, from: nat, next: nat)
    requires from < next <= |text| && next == NextBoundary(text, from) + 1
    requires SentencesFrom(text, next) == NonBlank(SegmentsFrom(text, next))
    ensures SentencesFrom(text, from) == NonBlank(SegmentsFrom(text, from))
  {
    SentencesFromStep(text, from, next);
    SegmentsFromStep(text, from, next);
    PieceNotBlank(text, from, next);
    NonBlankCons(text[from..next], SegmentsFrom(text, next));
  }

  lemma SegmentsFromEnd(text: string, from: nat)
    requires from < |text| && NextBoundary(text, from) == |text|
    ensures SegmentsFrom(text, from) == [text[from..]]
  {
  }

  lemma SegmentsFromStep(text: string, from: nat, next: nat)
    requires from < next <= |text| && next == NextBoundary(text, from) + 1
    ensures SegmentsFrom(text, from) == [text[from..next]] + SegmentsFrom(text, next)
  {
  }

  /** A piece that ends at a boundary is not blank. */
  lemma PieceNotBlank(text: string, from: nat, next: nat)
    requires from < next <= |text| && IsTerminal(text[next - 1])
    ensures Trim(text[from..next]) != []
  {
    PieceLast(text, from, next);
    TerminalIsVisible(text[next - 1]);
    TrimKeepsLast(text[from..next]);
  }

  lemma NonBlankOne(seg: string)
    ensures NonBlank([seg]) == if Trim(seg) == [] then [] else [Trim(seg)]
  {
    assert [seg][1..] == [];
  }

  lemma NonBlankCons(seg: string, rest: seq<string>)
    requires Trim(seg) != []
    ensures NonBlank([seg] + rest) == [Trim(seg)] + NonBlank(rest)
  {
    assert ([seg] + rest)[1..] == rest;
  }

  /** The sentence that ends at a boundary `i` is the trimmed text since `start`, and it
      is never blank, since its last byte is terminal. */
  lemma SentencesAtBoundary(text: string, start: nat, i: nat, done: seq<string>)
    requires start <= i < |text| && NextBoundary(text, start) >= i && IsBoundary(text, i)
    requires done + SentencesFrom(text, start) == SentencesOf(text)
    ensures Trim(text[start..i + 1]) != []
    ensures (done + [Trim(text[start..i + 1])]) + SentencesFrom(text, i + 1) == SentencesOf(text)
  {
    var next := i + 1;
    assert NextBoundary(text, start) == i;
    SentencesFromStep(text, start, next);
    PieceNotBlank(text, start, next);
    SnocAssoc(done, Trim(text[start..next]), SentencesFrom(text, next), SentencesOf(text));
  }

  lemma SnocAssoc(done: seq<string>, s: string, rest: seq<string>, all: seq<string>)
    requires done + ([s] + rest) == all
    ensures (done + [s]) + rest == all
  {
  }

  /** At the end of the text, what is left since `start` is the last sentence unless blank. */
  lemma SentencesAtEnd(text: string, start: nat, done: seq<string>)
    requires start <= |text| && NextBoundary(text, start) >= |text|
    requires done + SentencesFrom(text, start) == SentencesOf(text)
    ensures SentencesOf(text) == done + if Trim(text[start..]) == [] then [] else [Trim(text[start..])]
  {
    if start == |text| {
      assert text[start..] == [];
    }
  }

  lemma SliceExtend(s: string, lo: nat, i: nat)
    requires lo <= i < |s|
    ensures s[lo..i] + [s[i]] == s[lo..i + 1]
  {
  }

  lemma InsideSentence(text: string, start: nat, i: nat)
    requires start <= i < |text| && NextBoundary(text, start) >= i && !IsBoundary(text, i)
    ensures NextBoundary(text, start) >= i + 1
  {
  }

  /** The state of the scanner before byte `i`: the sentences emitted so far, followed
      by the sentences of the text from `start`, are the sentences of the text, and the
      builder holds the bytes read since `start`, none of which was a boundary. */
  predicate Scanning(text: string, start: nat, i: nat, done: seq<string>, current: string) {
    start <= i <= |text| && current == text[start..i] &&
    NextBoundary(text, start) >= i &&
    done + SentencesFrom(text, start) == SentencesOf(text)
  }

  /** Reading a byte that is not a boundary extends the builder. */
  lemma ScanInside(text: string, start: nat, i: nat, done: seq<string>, current: string)
    requires Scanning(text, start, i, done, current) && i < |text| && !IsBoundary(text, i)
    ensures Scanning(text, start, i + 1, done, current + [text[i]])
  {
    SliceExtend(text, start, i);
    InsideSentence(text, start, i);
  }

  /** Reading a boundary byte completes a sentence, which is never blank. */
  lemma ScanBoundary(text: string, start: nat, i: nat, done: seq<string>, current: string)
    requires Scanning(text, start, i, done, current) && i < |text| && IsBoundary(text, i)
    ensures Trim(current + [text[i]]) != []
    ensures Scanning(text, i + 1, i + 1, done + [Trim(current + [text[i]])], "")
  {
    SliceExtend(text, start, i);
    SentencesAtBoundary(text, start, i, done);
  }

  /** At the end of the text the builder, trimmed, is the last sentence unless blank. */
  lemma ScanDone(text: string, start: nat, done: seq<string>, current: string)
    requires Scanning(text, start, |text|, done, current)
    ensures SentencesOf(text) == done + if Trim(current) == [] then [] else [Trim(current)]
  {
    assert current == text[start..];
    SentencesAtEnd(text, start, done);
  }

  /** `splitIntoSentences`: reads the text byte by byte into a builder; at a terminal byte
      whose lookahead is not terminal, the trimmed builder becomes a sentence. */
  method SplitIntoSentences(text: string) returns (sentences: seq<string>)
    ensures sentences == SentencesOf(text)
  {
    sentences := [];
    var current := "";
    ghost var start := 0;
    for i := 0 to |text|
      invariant Scanning(text, start, i, sentences, current)
    {
      ghost var before := current;
      current := current + [text[i]];
      if IsTerminal(text[i]) {
        if i + 1 < |text| && IsTerminal(text[i + 1]) {
          // a run of terminal bytes such as "...": the sentence goes on
          ScanInside(text, start, i, sentences, before);
        } else {
          ScanBoundary(text, start, i, sentences, before);
          var sentence := Trim(current);
          if |sentence| > 0 {
            sentences := sentences + [sentence];
            current := "";
            start := i + 1;
          }
        }
      } else {
        ScanInside(text, start, i, sentences, before);
      }
    }
    ScanDone(text, start, sentences, current);
    var remaining := Trim(current);
    if |remaining| > 0 {
      sentences := sentences + [remaining];
    }
  }

  /** Every sentence is non-empty and has no leading or trailing whitespace. */
  lemma {:induction false} SentencesTight(text: string, from: nat)
    requires from <= |text|
    ensures forall j :: 0 <= j < |SentencesFrom(text, from)| ==> Tight(SentencesFrom(text, from)[j])
    decreases |text| - from
  {
    if from < |text| {
      if NextBoundary(text, from) == |text| {
        SentencesTightEnd(text, from);
      } else {
        var next := NextBoundary(text, from) + 1;
        SentencesTight(text, next);
        SentencesTightStep(text, from, next);
      }
    }
  }

  lemma SentencesTightEnd(text: string, from: nat)
    requires from < |text| && NextBoundary(text, from) == |text|
    ensures forall j :: 0 <= j < |SentencesFrom(text, from)| ==> Tight(SentencesFrom(text, from)[j])
  {
    SentencesFromEnd(text, from);
  }

  lemma SentencesTightStep(text: string, from: nat, next: nat)
    requires from < next <= |text| && next == NextBoundary(text, from) + 1
    requires forall j :: 0 <= j < |SentencesFrom(text, next)| ==> Tight(SentencesFrom(text, next)[j])
    ensures forall j :: 0 <= j < |SentencesFrom(text, from)| ==> Tight(SentencesFrom(text, from)[j])
  {
    SentencesFromStep(text, from, next);
    PieceNotBlank(text, from, next);
    TightCons(Trim(text[from..next]), SentencesFrom(text, next));
  }

  lemma TightCons(s: string, rest: seq<string>)
    requires Tight(s) && forall j :: 0 <= j < |rest| ==> Tight(rest[j])
    ensures forall j :: 0 <= j < |[s] + rest| ==> Tight(([s] + rest)[j])
  {
    forall j | 0 <= j < |[s] + rest| ensures Tight(([s] + rest)[j]) {
      if j > 0 { assert ([s] + rest)[j] == rest[j - 1]; }
    }
  }

  /** Every sentence except possibly the last ends in '.', '!' or '?'. */
  lemma {:induction false} SentencesEndTerminal(text: string, from: nat)
    requires from <= |text|
    ensures forall j :: 0 <= j < |SentencesFrom(text, from)| - 1 ==> EndsTerminal(SentencesFrom(text, from)[j])
    decreases |text| - from
  {
    if from < |text| {
      if NextBoundary(text, from) == |text| {
        SentencesEndTerminalEnd(text, from);
      } else {
        var next := NextBoundary(text, from) + 1;
        SentencesEndTerminal(text, next);
        SentencesEndTerminalStep(text, from, next);
      }
    }
  }

  lemma SentencesEndTerminalEnd(text: string, from: nat)
    requires from < |text| && NextBoundary(text, from) == |text|
    ensures |SentencesFrom(text, from)| <= 1
  {
    SentencesFromEnd(text, from);
  }

  lemma SentencesEndTerminalStep(text: string, from: nat, next: nat)
    requires from < next <= |text| && next == NextBoundary(text, from) + 1
    requires forall j :: 0 <= j < |SentencesFrom(text, next)| - 1 ==> EndsTerminal(SentencesFrom(text, next)[j])
    ensures forall j :: 0 <= j < |SentencesFrom(text, from)| - 1 ==> EndsTerminal(SentencesFrom(text, from)[j])
  {
    SentencesFromStep(text, from, next);
    PieceEndsTerminal(text, from, next);
    EndsTerminalCons(Trim(text[from..next]), SentencesFrom(text, next));
  }

  /** The trimmed piece that ends at a terminal byte ends in that byte. */
  lemma PieceEndsTerminal(text: string, from: nat, next: nat)
    requires from < next <= |text| && IsTerminal(text[next - 1])
    ensures EndsTerminal(Trim(text[from..next]))
  {
    PieceLast(text, from, next);
    TerminalIsVisible(text[next - 1]);
    TrimKeepsLast(text[from..next]);
  }

  lemma PieceLast(text: string, from: nat, next: nat)
    requires from < next <= |text|
    ensures text[from..next] != [] && Last(text[from..next]) == text[next - 1]
  {
  }

  lemma EndsTerminalCons(s: string, rest: seq<string>)
    requires EndsTerminal(s) && forall j :: 0 <= j < |rest| - 1 ==> EndsTerminal(rest[j])
    ensures forall j :: 0 <= j < |[s] + rest| - 1 ==> EndsTerminal(([s] + rest)[j])
  {
    forall j | 0 <= j < |[s] + rest| - 1 ensures EndsTerminal(([s] + rest)[j]) {
      if j > 0 { assert ([s] + rest)[j] == rest[j - 1]; }
    }
  }

  /** The last sentence of `text[from..]` when no boundary is left. */
  lemma SentencesFromEnd(text: string, from: nat)
    requires from < |text| && NextBoundary(text, from) == |text|
    ensures SentencesFrom(text, from) == if Trim(text[from..]) == [] then [] else [Trim(text[from..])]
  {
  }

  /** The first sentence of `text[from..]` when a boundary is left, and the rest. */
  lemma SentencesFromStep(text: string, from: nat, next: nat)
    requires from < next <= |text| && next == NextBoundary(text, from) + 1
    ensures SentencesFrom(text, from) == [Trim(text[from..next])] + SentencesFrom(text, next)
  {
  }

  lemma VisibleLastPiece(piece: string)
    ensures Visible(Concat(if Trim(piece) == [] then [] else [Trim(piece)])) == Visible(piece)
  {
    var t := Trim(piece);
    VisibleTrim(piece);
    if t != [] {
      assert [t][1..] == [];
      assert Concat([t]) == t;
    }
  }

  lemma VisiblePieceStep(piece: string, after: string, rest: seq<string>, ss: seq<string>, whole: string)
    requires Visible(Concat(rest)) == Visible(after)
    requires ss == [Trim(piece)] + rest && whole == piece + after
    ensures Visible(Concat(ss)) == Visible(whole)
  {
    var r := [Trim(piece)] + rest;
    assert r[1..] == rest;
    VisibleConcat(piece, after);
    VisibleConcat(Trim(piece), Concat(rest));
    VisibleTrim(piece);
  }

  /** No visible byte is lost, duplicated or reordered: the sentences, concatenated, hold
      exactly the visible bytes of the text in their order. */
  lemma {:induction false} SentencesVisible(text: string, from: nat)
    requires from <= |text|
    ensures Visible(Concat(SentencesFrom(text, from))) == Visible(text[from..])
    decreases |text| - from
  {
    if from == |text| {
      SentencesVisibleEmpty(text);
    } else if NextBoundary(text, from) == |text| {
      SentencesVisibleEnd(text, from);
    } else {
      var next := NextBoundary(text, from) + 1;
      SentencesVisible(text, next);
      SentencesVisibleStep(text, from, next);
    }
  }

  lemma SentencesVisibleEmpty(text: string)
    ensures Visible(Concat(SentencesFrom(text, |text|))) == Visible(text[|text|..])
  {
    assert text[|text|..] == [];
  }

  lemma SentencesVisibleEnd(text: string, from: nat)
    requires from < |text| && NextBoundary(text, from) == |text|
    ensures Visible(Concat(SentencesFrom(text, from))) == Visible(text[from..])
  {
    SentencesFromEnd(text, from);
    VisibleLastPiece(text[from..]);
  }

  lemma SentencesVisibleStep(text: string, from: nat, next: nat)
    requires from < next <= |text| && next == NextBoundary(text, from) + 1
    requires Visible(Concat(SentencesFrom(text, next))) == Visible(text[next..])
    ensures Visible(Concat(SentencesFrom(text, from))) == Visible(text[from..])
  {
    SentencesFromStep(text, from, next);
    SliceSplit(text, from, next);
    VisiblePieceStep(text[from..next], text[next..], SentencesFrom(text, next), SentencesFrom(text, from), text[from..]);
  }

  /** Empty or whitespace-only text, and only such text, yields no sentences. */
  lemma SentencesEmpty(text: string)
    ensures SentencesOf(text) == [] <==> AllSpace(text)
  {
    SentencesVisible(text, 0);
    assert text[0..] == text;
    VisibleAllSpace(text);
    var r := SentencesOf(text);
    if r != [] {
      SentencesTight(text, 0);
      VisibleConcat(r[0], Concat(r[1..]));
      VisibleAllSpace(r[0]);
    }
  }

  /** Text with a visible byte but no terminal byte is one sentence: the trimmed text. */
  lemma NoTerminalOneSentence(text: string)
    requires forall i :: 0 <= i < |text| ==> !IsTerminal(text[i])
    requires !AllSpace(text)
    ensures SentencesOf(text) == [Trim(text)]
  {
    var k := NextBoundary(text, 0);
    assert k < |text| ==> IsBoundary(text, k);
    SentencesAtEnd(text, 0, []);
    assert text[0..] == text;
  }

  /** The sentences of single-spaced (in particular, of normalized) text are normalized. */
  lemma {:induction false} SentencesNormalizedFrom(text: string, from: nat)
    requires from <= |text| && SingleSpaced(text)
    ensures forall j :: 0 <= j < |SentencesFrom(text, from)| ==> Normalized(SentencesFrom(text, from)[j])
    decreases |text| - from
  {
    if from < |text| {
      if NextBoundary(text, from) == |text| {
        SentencesNormalizedEnd(text, from);
      } else {
        var next := NextBoundary(text, from) + 1;
        SentencesNormalizedFrom(text, next);
        SentencesNormalizedStep(text, from, next);
      }
    }
  }

  lemma SentencesNormalizedEnd(text: string, from: nat)
    requires from < |text| && NextBoundary(text, from) == |text| && SingleSpaced(text)
    ensures forall j :: 0 <= j < |SentencesFrom(text, from)| ==> Normalized(SentencesFrom(text, from)[j])
  {
    SentencesFromEnd(text, from);
    NormalizedPiece(text, from, |text|);
    assert text[from..|text|] == text[from..];
  }

  lemma SentencesNormalizedStep(text: string, from: nat, next: nat)
    requires from < next <= |text| && next == NextBoundary(text, from) + 1 && SingleSpaced(text)
    requires forall j :: 0 <= j < |SentencesFrom(text, next)| ==> Normalized(SentencesFrom(text, next)[j])
    ensures forall j :: 0 <= j < |SentencesFrom(text, from)| ==> Normalized(SentencesFrom(text, from)[j])
  {
    SentencesFromStep(text, from, next);
    NormalizedPiece(text, from, next);
    NormalizedCons(Trim(text[from..next]), SentencesFrom(text, next));
  }

  lemma NormalizedPiece(text: string, a: nat, b: nat)
    requires SingleSpaced(text) && a <= b <= |text|
    ensures Normalized(Trim(text[a..b]))
  {
    SingleSpacedSlice(text, a, b);
    TrimSingleSpaced(text[a..b]);
  }

  lemma NormalizedCons(s: string, rest: seq<string>)
    requires Normalized(s) && forall j :: 0 <= j < |rest| ==> Normalized(rest[j])
    ensures forall j :: 0 <= j < |[s] + rest| ==> Normalized(([s] + rest)[j])
  {
    forall j | 0 <= j < |[s] + rest| ensures Normalized(([s] + rest)[j]) {
      if j > 0 { assert ([s] + rest)[j] == rest[j - 1]; }
    }
  }

  /** The sentences of normalized text are themselves normalized. */
  lemma SentencesNormalized(text: string)
    requires Normalized(text)
    ensures forall j :: 0 <= j < |SentencesOf(text)| ==> Normalized(SentencesOf(text)[j])
  {
    NormalizedSingleSpaced(text);
    SentencesNormalizedFrom(text, 0);
  }

  /** A run of terminal bytes stays in one sentence, and the blank before the next
      sentence is trimmed away. */
  lemma TerminalRunExample()
    ensures SentencesOf("Hi?! Ok...") == ["Hi?!", "Ok..."]
  {
    var t := "Hi?! Ok...";
    ExampleBoundaries(t);
    SentencesFromStep(t, 0, 4);
    SentencesFromStep(t, 4, 10);
    ExampleTrims(t);
  }

  lemma ExampleBoundaries(t: string)
    requires t == "Hi?! Ok..."
    ensures NextBoundary(t, 0) == 3 && NextBoundary(t, 4) == 9
  {
    assert !IsBoundary(t, 2) && IsBoundary(t, 3);
    assert !IsBoundary(t, 7) && !IsBoundary(t, 8) && IsBoundary(t, 9);
  }

  lemma ExampleTrims(t: string)
    requires t == "Hi?! Ok..."
    ensures Trim(t[0..4]) == "Hi?!" && Trim(t[4..10]) == "Ok..."
  {
    assert t[0..4] == "Hi?!";
    TrimTight("Hi?!");
    var rest := t[4..10];
    assert rest[0] == ' ' && rest[1..] == "Ok...";
    TrimTight("Ok...");
  }

}

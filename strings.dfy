/** The three functions of Go's `strings` package that the chunker relies on
    (`TrimSpace`, `Fields`, `Join` with a single-space separator), restricted to
    ASCII whitespace, and the facts about them that the chunker's proofs use.
    A Go string is a sequence of bytes; here each `char` stands for one byte.

    Some small lemmas model nothing in the chunker: `ConsTail`, `AppendAssoc`,
    `AppendEmpty`, `AppendNone`, `SnocLast`, `ConsCombine`, `AppendSlices`, `SliceSplit`,
    `TailSlices` and `InitSlices` each state one identity about sequences, apart from
    any function, so that the proofs that call them stay cheap for the verifier. */
module Strings {

  const VerticalTab: char := 11 as char
  const FormFeed: char := 12 as char

  /** ASCII whitespace as `strings.TrimSpace` and `strings.Fields` see it. */
  predicate IsSpace(c: char) {
    c == ' ' || c == '\t' || c == '\n' || c == '\r' || c == VerticalTab || c == FormFeed
  }

  predicate AllSpace(s: string) {
    forall i :: 0 <= i < |s| ==> IsSpace(s[i])
  }

  predicate NoSpace(s: string) {
    forall i :: 0 <= i < |s| ==> !IsSpace(s[i])
  }

  /** Non-empty, with a visible byte at both ends: what `TrimSpace` leaves of a non-blank string. */
  predicate Tight(s: string) {
    |s| > 0 && !IsSpace(s[0]) && !IsSpace(s[|s| - 1])
  }

  /** Every whitespace byte is a single ' ' with a visible byte on both sides: the shape of
      `strings.Join(strings.Fields(s), " ")`. */
  predicate Normalized(s: string) {
    forall i :: 0 <= i < |s| ==> InnerSpaceAt(s, i)
  }

  /** If byte `i` is whitespace, it is a ' ' between two visible bytes. */
  predicate InnerSpaceAt(s: string, i: nat)
    requires i < |s|
  {
    IsSpace(s[i]) ==> s[i] == ' ' && 0 < i < |s| - 1 && !IsSpace(s[i - 1]) && !IsSpace(s[i + 1])
  }

  /** Every whitespace byte is a ' ' whose neighbours (where they exist) are visible; the
      property every substring of a normalized string keeps. */
  predicate SingleSpaced(s: string) {
    forall i :: 0 <= i < |s| ==> LoneSpaceAt(s, i)
  }

  /** If byte `i` is whitespace, it is a ' ' and its neighbours, where they exist, are visible. */
  predicate LoneSpaceAt(s: string, i: nat)
    requires i < |s|
  {
    IsSpace(s[i]) ==> s[i] == ' ' && (0 < i ==> !IsSpace(s[i - 1])) && (i < |s| - 1 ==> !IsSpace(s[i + 1]))
  }

  function Last(s: string): char
    requires s != []
  {
    s[|s| - 1]
  }

  // ---------------------------------------------------------------------------
  // strings.TrimSpace

  /** `strings.TrimSpace`: drops whitespace at both ends. The result is blank exactly when
      the input is all whitespace, and otherwise it starts and ends with a visible byte. */
  function Trim(s: string): (r: string)
    ensures |r| <= |s|
    ensures r == [] <==> AllSpace(s)
    ensures r != [] ==> Tight(r)
    decreases |s|
  {
    if s == [] then []
    else if IsSpace(s[0]) then
      assert AllSpace(s) <==> AllSpace(s[1..]) by {
        assert forall i :: 0 < i < |s| ==> s[i] == s[1..][i - 1];
      }
      Trim(s[1..])
    else if IsSpace(s[|s| - 1]) then
      assert !AllSpace(s);
      Trim(s[..|s| - 1])
    else s
  }

  lemma AllSpaceAppend(x: string, y: string)
    requires AllSpace(x) && AllSpace(y)
    ensures AllSpace(x + y)
  {
    forall i | 0 <= i < |x + y| ensures IsSpace((x + y)[i]) {
      if i >= |x| { assert (x + y)[i] == y[i - |x|]; }
    }
  }

  /** The trimmed form of a string is where `s` sits between two all-space strings. */
  lemma {:induction false} TrimBounds(s: string) returns (a: nat, b: nat)
    ensures a <= b <= |s| && Trim(s) == s[a..b]
    ensures AllSpace(s[..a]) && AllSpace(s[b..])
    decreases |s|, 1
  {
    if s == [] {
      a, b := 0, 0;
    } else if IsSpace(s[0]) {
      a, b := TrimBoundsHead(s);
    } else if IsSpace(s[|s| - 1]) {
      a, b := TrimBoundsTail(s);
    } else {
      a, b := 0, |s|;
      assert s[0..|s|] == s;
    }
  }

  lemma {:induction false} TrimBoundsHead(s: string) returns (a: nat, b: nat)
    requires s != [] && IsSpace(s[0])
    ensures a <= b <= |s| && Trim(s) == s[a..b]
    ensures AllSpace(s[..a]) && AllSpace(s[b..])
    decreases |s|, 0
  {
    var t := s[1..];
    var a', b' := TrimBounds(t);
    a, b := a' + 1, b' + 1;
    TailSlices(s, a', b');
    AllSpaceAppend([s[0]], t[..a']);
  }

  /** Slices of `s` past its first byte are slices of `s[1..]`. */
  lemma TailSlices(s: string, i: nat, j: nat)
    requires i <= j < |s|
    ensures s[i + 1..j + 1] == s[1..][i..j]
    ensures s[..i + 1] == [s[0]] + s[1..][..i]
    ensures s[j + 1..] == s[1..][j..]
  {
  }

  lemma {:induction false} TrimBoundsTail(s: string) returns (a: nat, b: nat)
    requires s != [] && !IsSpace(s[0]) && IsSpace(s[|s| - 1])
    ensures a <= b <= |s| && Trim(s) == s[a..b]
    ensures AllSpace(s[..a]) && AllSpace(s[b..])
    decreases |s|, 0
  {
    var t := s[..|s| - 1];
    var a', b' := TrimBounds(t);
    a, b := a', b';
    InitSlices(s, a', b');
    AllSpaceAppend(t[b'..], [s[|s| - 1]]);
  }

  /** Slices of `s` short of its last byte are slices of `s[..|s| - 1]`. */
  lemma InitSlices(s: string, i: nat, j: nat)
    requires i <= j < |s|
    ensures s[i..j] == s[..|s| - 1][i..j]
    ensures s[..i] == s[..|s| - 1][..i]
    ensures s[j..] == s[..|s| - 1][j..] + [s[|s| - 1]]
  {
  }

  lemma TrimTight(s: string)
    requires Tight(s)
    ensures Trim(s) == s
  {
  }

  /** `TrimSpace` removes exactly the one space the chunk builder writes after its last sentence. */
  lemma TrimTrailingSpace(s: string)
    requires Tight(s)
    ensures Trim(s + " ") == s
  {
    var t := s + " ";
    assert t[0] == s[0];
    assert t[..|t| - 1] == s;
  }

  /** A string that ends in a visible byte keeps that byte as the last one of its trim. */
  lemma TrimKeepsLast(s: string)
    requires s != [] && !IsSpace(Last(s))
    ensures Trim(s) != [] && Last(Trim(s)) == Last(s)
  {
    assert !AllSpace(s);
    var a, b := TrimBounds(s);
  }

  lemma SingleSpacedSlice(s: string, a: nat, b: nat)
    requires SingleSpaced(s) && a <= b <= |s|
    ensures SingleSpaced(s[a..b])
  {
    var t := s[a..b];
    forall i | 0 <= i < |t| ensures LoneSpaceAt(t, i) {
      assert LoneSpaceAt(s, a + i);
      assert t[i] == s[a + i];
      if 0 < i { assert t[i - 1] == s[a + i - 1]; }
      if i < |t| - 1 { assert t[i + 1] == s[a + i + 1]; }
    }
  }

  lemma NormalizedSingleSpaced(s: string)
    requires Normalized(s)
    ensures SingleSpaced(s)
  {
    forall i | 0 <= i < |s| ensures LoneSpaceAt(s, i) {
      assert InnerSpaceAt(s, i);
    }
  }

  /** Trimming a single-spaced string gives a normalized one. */
  lemma TrimSingleSpaced(s: string)
    requires SingleSpaced(s)
    ensures Normalized(Trim(s))
  {
    var a, b := TrimBounds(s);
    SingleSpacedSlice(s, a, b);
    var t := Trim(s);
    forall i | 0 <= i < |t| ensures InnerSpaceAt(t, i) {
      assert LoneSpaceAt(t, i);
    }
  }

  // ---------------------------------------------------------------------------
  // Visible bytes: a string with its whitespace removed

  function Visible(s: string): (r: string)
    ensures |r| <= |s|
  {
    if s == [] then [] else (if IsSpace(s[0]) then [] else [s[0]]) + Visible(s[1..])
  }

  lemma {:induction false} VisibleConcat(a: string, b: string)
    ensures Visible(a + b) == Visible(a) + Visible(b)
  {
    if a == [] {
      assert a + b == b;
    } else {
      VisibleConcat(a[1..], b);
      VisibleConsConcat(a, b);
    }
  }

  lemma VisibleConsConcat(a: string, b: string)
    requires a != [] && Visible(a[1..] + b) == Visible(a[1..]) + Visible(b)
    ensures Visible(a + b) == Visible(a) + Visible(b)
  {
    ConsTail(a, b);
    AppendAssoc(if IsSpace(a[0]) then [] else [a[0]], Visible(a[1..]), Visible(b));
  }

  lemma ConsTail(a: string, b: string)
    requires a != []
    ensures a + b != [] && (a + b)[0] == a[0] && (a + b)[1..] == a[1..] + b
  {
  }

  lemma AppendAssoc(x: string, y: string, z: string)
    ensures (x + y) + z == x + (y + z)
  {
  }

  lemma {:induction false} VisibleAllSpace(s: string)
    ensures Visible(s) == [] <==> AllSpace(s)
  {
    if s != [] {
      VisibleAllSpace(s[1..]);
      assert AllSpace(s) <==> IsSpace(s[0]) && AllSpace(s[1..]) by {
        if IsSpace(s[0]) && AllSpace(s[1..]) {
          forall i | 0 <= i < |s| ensures IsSpace(s[i]) {
            if i > 0 { assert s[i] == s[1..][i - 1]; }
          }
        }
      }
    }
  }

  /** `TrimSpace` only ever drops whitespace. */
  lemma {:induction false} VisibleTrim(s: string)
    ensures Visible(Trim(s)) == Visible(s)
    decreases |s|
  {
    if s != [] && IsSpace(s[0]) {
      VisibleTrim(s[1..]);
    } else if s != [] && IsSpace(s[|s| - 1]) {
      VisibleTrim(s[..|s| - 1]);
      VisibleDropLast(s);
    }
  }

  /** Dropping a trailing whitespace byte keeps the visible bytes. */
  lemma VisibleDropLast(s: string)
    requires s != [] && IsSpace(s[|s| - 1])
    ensures Visible(s[..|s| - 1]) == Visible(s)
  {
    var init, c := s[..|s| - 1], s[|s| - 1];
    SnocLast(s);
    VisibleConcat(init, [c]);
    VisibleOne(c);
    AppendEmpty(Visible(init));
  }

  lemma SnocLast(s: string)
    requires s != []
    ensures s == s[..|s| - 1] + [s[|s| - 1]]
  {
  }

  lemma AppendEmpty(s: string)
    ensures s + [] == s
  {
  }

  lemma VisibleOne(c: char)
    ensures Visible([c]) == if IsSpace(c) then [] else [c]
  {
    assert [c][1..] == [];
  }

  // ---------------------------------------------------------------------------
  // Concatenation and strings.Join(ws, " ")

  function Concat(ss: seq<string>): string {
    if ss == [] then [] else ss[0] + Concat(ss[1..])
  }

  lemma ConcatCons(s: string, rest: seq<string>)
    ensures Concat([s] + rest) == s + Concat(rest)
  {
    assert ([s] + rest)[1..] == rest;
  }

  lemma ConcatOne(s: string)
    ensures Concat([s]) == s
  {
    ConcatCons(s, []);
    assert s + [] == s;
  }

  /** `Concat` of a piece followed by pieces whose concatenation is known. */
  lemma ConcatStep(a: string, rest: seq<string>, t: string, whole: string)
    requires Concat(rest) == t && whole == a + t
    ensures Concat([a] + rest) == whole
  {
    ConcatCons(a, rest);
  }

  lemma SliceSplit(s: string, a: nat, m: nat)
    requires a <= m <= |s|
    ensures s[a..] == s[a..m] + s[m..]
  {
  }

  lemma {:induction false} ConcatAppend(ss: seq<string>, s: string)
    ensures Concat(ss + [s]) == Concat(ss) + s
  {
    if ss == [] {
      assert [] + [s] == [s];
    } else {
      assert (ss + [s])[1..] == ss[1..] + [s];
      ConcatAppend(ss[1..], s);
    }
  }

  /** `strings.Join(ws, " ")`. */
  function Join(ws: seq<string>): string {
    if ws == [] then []
    else if |ws| == 1 then ws[0]
    else Join(ws[..|ws| - 1]) + " " + ws[|ws| - 1]
  }

  lemma {:induction false} JoinAppend(a: seq<string>, b: seq<string>)
    requires a != [] && b != []
    ensures Join(a + b) == Join(a) + " " + Join(b)
    decreases |b|
  {
    if |b| == 1 {
      assert (a + b)[..|a + b| - 1] == a;
    } else {
      var b' := b[..|b| - 1];
      assert (a + b)[..|a + b| - 1] == a + b';
      assert b[|b| - 1] == (a + b)[|a + b| - 1];
      JoinAppend(a, b');
    }
  }

  /** Joining with single spaces adds only whitespace between the words. */
  lemma {:induction false} VisibleJoin(ws: seq<string>)
    ensures Visible(Join(ws)) == Visible(Concat(ws))
    decreases |ws|
  {
    if |ws| == 1 {
      assert ws == [ws[0]];
      ConcatOne(ws[0]);
    } else if |ws| > 1 {
      var init := ws[..|ws| - 1];
      VisibleJoin(init);
      VisibleJoinStep(ws, init);
    }
  }

  lemma VisibleJoinStep(ws: seq<string>, init: seq<string>)
    requires |ws| > 1 && init == ws[..|ws| - 1]
    requires Visible(Join(init)) == Visible(Concat(init))
    ensures Visible(Join(ws)) == Visible(Concat(ws))
  {
    var w := ws[|ws| - 1];
    assert ws == init + [w];
    ConcatAppend(init, w);
    VisibleSpaced(Join(init), Concat(init), w);
  }

  /** A space between two strings is invisible. */
  lemma VisibleSpaced(a: string, b: string, w: string)
    requires Visible(a) == Visible(b)
    ensures Visible(a + " " + w) == Visible(b + w)
  {
    VisibleConcat(a + " ", w);
    VisibleConcat(a, " ");
    VisibleConcat(b, w);
    VisibleOne(' ');
    AppendEmpty(Visible(a));
  }

  /** Joining tight, normalized words with single spaces gives a tight, normalized string. */
  lemma {:induction false} JoinNormalized(ws: seq<string>)
    requires forall k :: 0 <= k < |ws| ==> Tight(ws[k]) && Normalized(ws[k])
    ensures Normalized(Join(ws))
    ensures ws != [] ==> Tight(Join(ws))
    decreases |ws|
  {
    if |ws| > 1 {
      var init := ws[..|ws| - 1];
      var w := ws[|ws| - 1];
      JoinNormalized(init);
      var a := Join(init);
      var s := a + " " + w;
      assert Join(ws) == s;
      forall i | 0 <= i < |s| ensures InnerSpaceAt(s, i) {
        if IsSpace(s[i]) {
          if i < |a| {
            assert InnerSpaceAt(a, i);
            assert s[i] == a[i];
            assert s[i - 1] == a[i - 1];
            assert s[i + 1] == a[i + 1];
          } else if i > |a| {
            var j := i - |a| - 1;
            assert InnerSpaceAt(w, j);
            assert s[i] == w[j];
            assert s[i - 1] == w[j - 1];
            assert s[i + 1] == w[j + 1];
          } else {
            assert s[i - 1] == a[|a| - 1];
            assert s[i + 1] == w[0];
          }
        }
      }
      assert s[0] == a[0] && s[|s| - 1] == w[|w| - 1];
    }
  }

  // ---------------------------------------------------------------------------
  // strings.Fields

  /** The first index at or after `i` that holds whitespace, or |s|. */
  function WordEnd(s: string, i: nat): (k: nat)
    requires i <= |s|
    ensures i <= k <= |s|
    ensures forall j :: i <= j < k ==> !IsSpace(s[j])
    ensures k < |s| ==> IsSpace(s[k])
    decreases |s| - i
  {
    if i == |s| || IsSpace(s[i]) then i else WordEnd(s, i + 1)
  }

  /** `strings.Fields`: the maximal runs of visible bytes, in order. */
  function Fields(s: string): seq<string>
    decreases |s|
  {
    if s == [] then []
    else if IsSpace(s[0]) then Fields(s[1..])
    else
      var k := WordEnd(s, 0);
      [s[..k]] + Fields(s[k..])
  }

  /** Every field is a non-empty run of visible bytes. */
  lemma {:induction false} FieldsAreWords(s: string)
    ensures forall k :: 0 <= k < |Fields(s)| ==> Fields(s)[k] != [] && NoSpace(Fields(s)[k])
    decreases |s|
  {
    if s != [] {
      if IsSpace(s[0]) {
        FieldsAreWords(s[1..]);
      } else {
        var k := WordEnd(s, 0);
        FieldsAreWords(s[k..]);
        FieldsFirstWord(s);
        FirstWord(s);
        WordsCons(s[..k], Fields(s[k..]));
      }
    }
  }

  /** The first field of a string that starts with a visible byte is a word. */
  lemma FirstWord(s: string)
    requires s != [] && !IsSpace(s[0])
    ensures s[..WordEnd(s, 0)] != [] && NoSpace(s[..WordEnd(s, 0)])
  {
  }

  lemma WordsCons(w: string, rest: seq<string>)
    requires w != [] && NoSpace(w)
    requires forall k :: 0 <= k < |rest| ==> rest[k] != [] && NoSpace(rest[k])
    ensures forall k :: 0 <= k < |[w] + rest| ==> ([w] + rest)[k] != [] && NoSpace(([w] + rest)[k])
  {
    forall k | 0 <= k < |[w] + rest| ensures ([w] + rest)[k] != [] && NoSpace(([w] + rest)[k]) {
      if k > 0 { assert ([w] + rest)[k] == rest[k - 1]; }
    }
  }

  /** `strings.Join(strings.Fields(s), " ")`, the normalisation of line 152. */
  function Normalize(s: string): string {
    Join(Fields(s))
  }

  lemma {:induction false} WordEndAppend(x: string, y: string, i: nat)
    requires i <= |x|
    requires WordEnd(x, i) < |x| || y == [] || IsSpace(y[0])
    ensures WordEnd(x + y, i) == WordEnd(x, i)
    decreases |x| - i
  {
    if i < |x| && !IsSpace(x[i]) {
      assert (x + y)[i] == x[i];
      WordEndAppend(x, y, i + 1);
    } else if i == |x| && y != [] {
      assert (x + y)[i] == y[0];
    } else if i < |x| {
      assert (x + y)[i] == x[i];
    }
  }

  /** `Fields` of a string that starts with a visible byte: its first word, then the rest. */
  lemma FieldsFirstWord(s: string)
    requires s != [] && !IsSpace(s[0])
    ensures Fields(s) == [s[..WordEnd(s, 0)]] + Fields(s[WordEnd(s, 0)..])
  {
  }

  /** Fields of two strings separated by whitespace are the fields of each, in order. */
  lemma {:induction false} FieldsAppend(x: string, y: string)
    requires x == [] || y == [] || IsSpace(Last(x)) || IsSpace(y[0])
    ensures Fields(x + y) == Fields(x) + Fields(y)
    decreases |x|, 1
  {
    if x == [] {
      FieldsAppendEmpty(y);
    } else if IsSpace(x[0]) {
      FieldsAppendSpace(x, y);
    } else {
      FieldsAppendWord(x, y);
    }
  }

  lemma FieldsAppendEmpty(y: string)
    ensures Fields([] + y) == Fields([]) + Fields(y)
  {
    assert [] + y == y;
    assert [] + Fields(y) == Fields(y);
  }

  lemma {:induction false} FieldsAppendSpace(x: string, y: string)
    requires x != [] && IsSpace(x[0])
    requires y == [] || IsSpace(Last(x)) || IsSpace(y[0])
    ensures Fields(x + y) == Fields(x) + Fields(y)
    decreases |x|, 0
  {
    var xy := x + y;
    assert xy[0] == x[0];
    assert xy[1..] == x[1..] + y;
    if x[1..] != [] { assert Last(x[1..]) == Last(x); }
    FieldsAppend(x[1..], y);
  }

  lemma {:induction false} FieldsAppendWord(x: string, y: string)
    requires x != [] && !IsSpace(x[0])
    requires y == [] || IsSpace(Last(x)) || IsSpace(y[0])
    ensures Fields(x + y) == Fields(x) + Fields(y)
    decreases |x|, 0
  {
    var k := WordEnd(x, 0);
    if k == |x| {
      assert !IsSpace(Last(x));
    }
    FieldsWordSplit(x, y);
    FieldsFirstWord(x);
    if k < |x| {
      assert Last(x[k..]) == Last(x);
      FieldsAppend(x[k..], y);
    } else {
      assert x[k..] == [];
      FieldsAppendEmpty(y);
    }
    ConsCombine(x[..k], Fields(x[k..]), Fields(y), Fields(x[k..] + y));
  }

  /** The first word of `x + y` is the first word of `x` when `x` ends that word itself or
      `y` starts with whitespace. */
  lemma FieldsWordSplit(x: string, y: string)
    requires x != [] && !IsSpace(x[0])
    requires WordEnd(x, 0) < |x| || y == [] || IsSpace(y[0])
    ensures Fields(x + y) == [x[..WordEnd(x, 0)]] + Fields(x[WordEnd(x, 0)..] + y)
  {
    var k := WordEnd(x, 0);
    WordEndAppend(x, y, 0);
    AppendSlices(x, y, k);
    FieldsFirstWord(x + y);
  }

  lemma AppendSlices(x: string, y: string, k: nat)
    requires k <= |x|
    ensures x != [] ==> (x + y)[0] == x[0]
    ensures (x + y)[..k] == x[..k] && (x + y)[k..] == x[k..] + y
  {
  }

  lemma ConsCombine(w: string, a: seq<string>, b: seq<string>, c: seq<string>)
    requires c == a + b
    ensures [w] + c == ([w] + a) + b
  {
  }



  lemma FieldsOfWord(w: string)
    requires w != [] && NoSpace(w)
    ensures Fields(w) == [w]
  {
    assert WordEnd(w, 0) == |w|;
    assert w[..|w|] == w;
    assert w[|w|..] == [];
  }

  lemma {:induction false} FieldsOfSpaces(s: string)
    requires AllSpace(s)
    ensures Fields(s) == []
    decreases |s|
  {
    if s != [] {
      assert AllSpace(s[1..]) by {
        forall i | 0 <= i < |s| - 1 ensures IsSpace(s[1..][i]) { assert s[1..][i] == s[i + 1]; }
      }
      FieldsOfSpaces(s[1..]);
    }
  }

  /** Splitting a string joined from words gives those words back. */
  lemma {:induction false} FieldsOfJoin(ws: seq<string>)
    requires forall k :: 0 <= k < |ws| ==> ws[k] != [] && NoSpace(ws[k])
    ensures Fields(Join(ws)) == ws
    decreases |ws|
  {
    if |ws| == 1 {
      FieldsOfWord(ws[0]);
    } else if |ws| > 1 {
      var init := ws[..|ws| - 1];
      FieldsOfJoin(init);
      FieldsOfJoinStep(ws, init);
    }
  }

  lemma FieldsOfJoinStep(ws: seq<string>, init: seq<string>)
    requires |ws| > 1 && init == ws[..|ws| - 1]
    requires ws[|ws| - 1] != [] && NoSpace(ws[|ws| - 1])
    requires Fields(Join(init)) == init
    ensures Fields(Join(ws)) == ws
  {
    var w := ws[|ws| - 1];
    assert ws == init + [w];
    FieldsOfWord(w);
    FieldsSpaced(Join(init), init, w);
  }

  /** The words of `a + " " + w` are those of `a`, then `w`'s. */
  lemma FieldsSpaced(a: string, words: seq<string>, w: string)
    requires Fields(a) == words
    ensures Fields(a + " " + w) == words + Fields(w)
  {
    FieldsAppend(a + " ", w);
    FieldsAppend(a, " ");
    FieldsOfSpaces(" ");
    AppendNone(words);
  }

  lemma AppendNone(words: seq<string>)
    ensures words + [] == words
  {
  }

  /** A trailing space does not change the words of a joined string. */
  lemma FieldsOfJoinSpace(ws: seq<string>)
    requires ws != [] && forall k :: 0 <= k < |ws| ==> ws[k] != [] && NoSpace(ws[k])
    ensures Fields(Join(ws) + " ") == ws
  {
    FieldsOfJoin(ws);
    FieldsAppend(Join(ws), " ");
    FieldsOfSpaces(" ");
    assert ws + [] == ws;
  }

  /** `strings.Fields` drops only whitespace. */
  lemma {:induction false} VisibleFields(s: string)
    ensures Visible(Concat(Fields(s))) == Visible(s)
    decreases |s|
  {
    if s != [] {
      if IsSpace(s[0]) {
        VisibleFields(s[1..]);
      } else {
        var k := WordEnd(s, 0);
        assert s == s[..k] + s[k..];
        VisibleFields(s[k..]);
        VisibleConcat(s[..k], s[k..]);
        var ws := [s[..k]] + Fields(s[k..]);
        assert ws[1..] == Fields(s[k..]);
        VisibleConcat(s[..k], Concat(Fields(s[k..])));
      }
    }
  }

  /** Normalisation keeps exactly the visible bytes, in order. */
  lemma VisibleNormalize(s: string)
    ensures Visible(Normalize(s)) == Visible(s)
  {
    VisibleJoin(Fields(s));
    VisibleFields(s);
  }

  /** A normalized string has no whitespace at its ends, so it is all whitespace only
      when it is empty. */
  lemma NormalizedAllSpace(s: string)
    requires Normalized(s)
    ensures AllSpace(s) <==> s == []
  {
    if s != [] {
      assert InnerSpaceAt(s, 0);
      assert !IsSpace(s[0]);
    }
  }

  /** Normalisation leaves single spaces between visible runs and nothing at the ends. */
  lemma NormalizeNormalized(s: string)
    ensures Normalized(Normalize(s))
    ensures Normalize(s) == [] <==> AllSpace(s)
  {
    var ws := Fields(s);
    FieldsAreWords(s);
    forall k | 0 <= k < |ws| ensures Tight(ws[k]) && Normalized(ws[k]) {
    }
    JoinNormalized(ws);
    VisibleNormalize(s);
    VisibleAllSpace(s);
    VisibleAllSpace(Normalize(s));
    if Normalize(s) == [] {
      assert Visible(Normalize(s)) == [];
    }
  }

  /** Normalisation is idempotent. */
  lemma NormalizeIdempotent(s: string)
    ensures Normalize(Normalize(s)) == Normalize(s)
  {
    FieldsAreWords(s);
    FieldsOfJoin(Fields(s));
  }
}

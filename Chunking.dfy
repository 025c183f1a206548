/**
 * The chunker: `split_into_chunks(text, max_chars=8000, overlap=300)` cuts the stripped notes
 * into windows of at most `max_chars` characters, each next window starting `overlap`
 * characters before the previous one ended.
 */
module Chunking {
  import opened PyStr

  const DefaultMaxChars := 8000
  const DefaultOverlap := 300

  /**
   * The sizes for which the chunker's loop always makes progress. Outside them the loop can
   * spin forever when the stripped text is longer than `max_chars`, because the next start
   * need not move forward.
   */
  predicate ValidSizes(maxChars: int, overlap: int)
  {
    0 < maxChars && overlap < maxChars
  }

  /** How far each window start moves on from the previous one. */
  function Step(maxChars: int, overlap: int): int
  {
    maxChars - overlap
  }

  /** The windows the loop appends once `start` has reached `start` in stripped text `t`. */
  function ChunksFrom(t: string, start: nat, maxChars: int, overlap: int): seq<string>
    requires ValidSizes(maxChars, overlap) && start < |t|
    decreases |t| - start
  {
    var end := Min(start + maxChars, |t|);
    if end == |t| then [t[start..end]]
    else
      var next := Max(0, end - overlap);
      [t[start..end]] + (if next < |t| then ChunksFrom(t, next, maxChars, overlap) else [])
  }

  /** What `split_into_chunks(text, max_chars, overlap)` returns. */
  function Chunks(text: string, maxChars: int, overlap: int): seq<string>
    requires ValidSizes(maxChars, overlap)
  {
    var t := Strip(text);
    if t == [] then [] else ChunksFrom(t, 0, maxChars, overlap)
  }

  /** `split_into_chunks` as the source runs it: a loop that appends one window per turn. */
  method SplitIntoChunks(text: string, maxChars: int, overlap: int) returns (chunks: seq<string>)
    requires ValidSizes(maxChars, overlap)
    ensures chunks == Chunks(text, maxChars, overlap)
  {
    var t := Strip(text);
    if t == [] {
      return [];
    }
    chunks := [];
    var start := 0;
    while start < |t|
      invariant 0 <= start
      invariant start < |t| ==> chunks + ChunksFrom(t, start, maxChars, overlap) == ChunksFrom(t, 0, maxChars, overlap)
      invariant start >= |t| ==> chunks == ChunksFrom(t, 0, maxChars, overlap)
      decreases |t| - start
    {
      var end := Min(start + maxChars, |t|);
      WindowTurn(t, chunks, start, maxChars, overlap);
      chunks := chunks + [t[start..end]];
      if end == |t| {
        break;
      }
      start := Max(0, end - overlap);
    }
  }

  /**
   * One turn of the loop keeps its invariant: after appending the window at `start`, the
   * windows from the next start, if it is inside the text, complete the list.
   */
  lemma WindowTurn(t: string, done: seq<string>, start: nat, maxChars: int, overlap: int)
    requires ValidSizes(maxChars, overlap) && start < |t|
    requires done + ChunksFrom(t, start, maxChars, overlap) == ChunksFrom(t, 0, maxChars, overlap)
    ensures var end := Min(start + maxChars, |t|);
      end == |t| ==> done + [t[start..end]] == ChunksFrom(t, 0, maxChars, overlap)
    ensures var end := Min(start + maxChars, |t|);
      var next := Max(0, end - overlap);
      end < |t| && next < |t| ==>
        done + [t[start..end]] + ChunksFrom(t, next, maxChars, overlap) == ChunksFrom(t, 0, maxChars, overlap)
    ensures var end := Min(start + maxChars, |t|);
      var next := Max(0, end - overlap);
      end < |t| && |t| <= next ==> done + [t[start..end]] == ChunksFrom(t, 0, maxChars, overlap)
  {
    var end := Min(start + maxChars, |t|);
    var next := Max(0, end - overlap);
    var w := [t[start..end]];
    if end < |t| && next < |t| {
      assert ChunksFrom(t, start, maxChars, overlap) == w + ChunksFrom(t, next, maxChars, overlap);
      assert done + w + ChunksFrom(t, next, maxChars, overlap) == done + (w + ChunksFrom(t, next, maxChars, overlap));
    } else {
      assert ChunksFrom(t, start, maxChars, overlap) == w;
    }
  }

  /** `split_into_chunks` returns `[]` exactly when the text is empty or whitespace-only. */
  lemma ChunksEmptyIffBlank(text: string, maxChars: int, overlap: int)
    requires ValidSizes(maxChars, overlap)
    ensures Chunks(text, maxChars, overlap) == [] <==> IsBlank(text)
  {
    StripEmptyIffBlank(text);
  }

  lemma ChunksOfNonBlank(text: string, maxChars: int, overlap: int)
    requires ValidSizes(maxChars, overlap)
    requires Chunks(text, maxChars, overlap) != []
    ensures Strip(text) != [] && Chunks(text, maxChars, overlap) == ChunksFrom(Strip(text), 0, maxChars, overlap)
  {
  }

  /** Where window `i` starts: `i` steps of `max_chars - overlap` from the start of the stripped text. */
  function ChunkStart(i: nat, maxChars: int, overlap: int): nat
    requires ValidSizes(maxChars, overlap)
  {
    if i == 0 then 0 else ChunkStart(i - 1, maxChars, overlap) + Step(maxChars, overlap)
  }

  /** The window of at most `maxChars` characters that starts at `a`. */
  function Window(t: string, a: nat, maxChars: int): string
    requires a < |t| && 0 < maxChars
  {
    t[a..Min(a + maxChars, |t|)]
  }

  /** One turn of the loop: the first window, and what the rest of the windows are. */
  lemma ChunksFromUnfold(t: string, start: nat, maxChars: int, overlap: int)
    requires ValidSizes(maxChars, overlap) && start < |t|
    ensures var end := Min(start + maxChars, |t|);
      var next := Max(0, end - overlap);
      var cs := ChunksFrom(t, start, maxChars, overlap);
      && cs != [] && cs[0] == Window(t, start, maxChars)
      && (1 < |cs| ==> end < |t| && next < |t| && next == start + Step(maxChars, overlap)
                       && cs[1..] == ChunksFrom(t, next, maxChars, overlap))
      && (|cs| == 1 && 0 <= overlap ==> end == |t|)
  {
    var end := Min(start + maxChars, |t|);
    if end < |t| {
      var next := Max(0, end - overlap);
      var rest := if next < |t| then ChunksFrom(t, next, maxChars, overlap) else [];
      assert ChunksFrom(t, start, maxChars, overlap) == [t[start..end]] + rest;
      assert ([t[start..end]] + rest)[1..] == rest;
    }
  }

  lemma ChunksFromLayout(t: string, start: nat, maxChars: int, overlap: int, i: nat)
    requires ValidSizes(maxChars, overlap) && start < |t|
    requires i < |ChunksFrom(t, start, maxChars, overlap)|
    ensures var cs, a := ChunksFrom(t, start, maxChars, overlap), start + ChunkStart(i, maxChars, overlap);
      && a < |t|
      && cs[i] == Window(t, a, maxChars)
      && (i + 1 < |cs| ==> a + maxChars < |t|)
      && (i + 1 == |cs| && 0 <= overlap ==> |t| <= a + maxChars)
  {
    ChunksFromContent(t, start, maxChars, overlap, i);
    ChunksFromEnds(t, start, maxChars, overlap, i);
  }

  lemma {:induction false} ChunksFromContent(t: string, start: nat, maxChars: int, overlap: int, i: nat)
    requires ValidSizes(maxChars, overlap) && start < |t|
    requires i < |ChunksFrom(t, start, maxChars, overlap)|
    ensures var a := start + ChunkStart(i, maxChars, overlap);
      a < |t| && ChunksFrom(t, start, maxChars, overlap)[i] == Window(t, a, maxChars)
    decreases i
  {
    var cs := ChunksFrom(t, start, maxChars, overlap);
    ChunksFromUnfold(t, start, maxChars, overlap);
    if i > 0 {
      var next := start + Step(maxChars, overlap);
      ChunksFromContent(t, next, maxChars, overlap, i - 1);
      assert cs[i] == cs[1..][i - 1];
      assert start + ChunkStart(i, maxChars, overlap) == next + ChunkStart(i - 1, maxChars, overlap);
    }
  }

  lemma {:induction false} ChunksFromEnds(t: string, start: nat, maxChars: int, overlap: int, i: nat)
    requires ValidSizes(maxChars, overlap) && start < |t|
    requires i < |ChunksFrom(t, start, maxChars, overlap)|
    ensures var cs, a := ChunksFrom(t, start, maxChars, overlap), start + ChunkStart(i, maxChars, overlap);
      && (i + 1 < |cs| ==> a + maxChars < |t|)
      && (i + 1 == |cs| && 0 <= overlap ==> |t| <= a + maxChars)
    decreases i
  {
    var cs := ChunksFrom(t, start, maxChars, overlap);
    var a := start + ChunkStart(i, maxChars, overlap);
    ChunksFromUnfold(t, start, maxChars, overlap);
    if i == 0 {
      assert a == start;
    } else {
      var next := start + Step(maxChars, overlap);
      var rest := ChunksFrom(t, next, maxChars, overlap);
      assert |cs| == |rest| + 1;
      assert a == next + ChunkStart(i - 1, maxChars, overlap);
      ChunksFromEnds(t, next, maxChars, overlap, i - 1);
    }
  }

  /**
   * Window `i` is the slice of the stripped text (never of the raw text) that starts at
   * `ChunkStart(i)`: every window but the last is exactly `max_chars` long, none is longer,
   * and with a non-negative overlap the last one ends at the end of the stripped text.
   */
  lemma ChunkLayout(text: string, maxChars: int, overlap: int, i: nat)
    requires ValidSizes(maxChars, overlap)
    requires i < |Chunks(text, maxChars, overlap)|
    ensures var cs, t, a := Chunks(text, maxChars, overlap), Strip(text), ChunkStart(i, maxChars, overlap);
      && 0 <= a < |t|
      && cs[i] == t[a..Min(a + maxChars, |t|)]
      && |cs[i]| <= maxChars
      && (i + 1 < |cs| ==> |cs[i]| == maxChars && a + maxChars < |t|)
      && (i + 1 == |cs| && 0 <= overlap ==> a + |cs[i]| == |t|)
  {
    ChunksOfNonBlank(text, maxChars, overlap);
    WindowsFromStart(Strip(text), maxChars, overlap, i);
  }

  /** `ChunkLayout` for the windows of a non-empty text taken from its first character. */
  lemma WindowsFromStart(t: string, maxChars: int, overlap: int, i: nat)
    requires ValidSizes(maxChars, overlap) && 0 < |t|
    requires i < |ChunksFrom(t, 0, maxChars, overlap)|
    ensures var cs, a := ChunksFrom(t, 0, maxChars, overlap), ChunkStart(i, maxChars, overlap);
      && 0 <= a < |t|
      && cs[i] == t[a..Min(a + maxChars, |t|)]
      && |cs[i]| <= maxChars
      && (i + 1 < |cs| ==> |cs[i]| == maxChars && a + maxChars < |t|)
      && (i + 1 == |cs| && 0 <= overlap ==> a + |cs[i]| == |t|)
  {
    var cs := ChunksFrom(t, 0, maxChars, overlap);
    var a := ChunkStart(i, maxChars, overlap);
    ChunksFromLayout(t, 0, maxChars, overlap, i);
    assert 0 + a == a;
    assert cs[i] == Window(t, a, maxChars) == t[a..Min(a + maxChars, |t|)];
  }

  /** With `0 <= overlap`, consecutive windows share exactly `overlap` characters. */
  lemma ConsecutiveChunksOverlap(text: string, maxChars: int, overlap: int, i: nat)
    requires ValidSizes(maxChars, overlap) && 0 <= overlap
    requires i + 1 < |Chunks(text, maxChars, overlap)|
    ensures var cs := Chunks(text, maxChars, overlap);
      overlap <= |cs[i]| && overlap <= |cs[i + 1]| && cs[i][|cs[i]| - overlap..] == cs[i + 1][..overlap]
  {
    var cs, t := Chunks(text, maxChars, overlap), Strip(text);
    var a := ChunkStart(i, maxChars, overlap);
    var b := ChunkStart(i + 1, maxChars, overlap);
    ChunkLayout(text, maxChars, overlap, i);
    ChunkLayout(text, maxChars, overlap, i + 1);
    assert b == a + maxChars - overlap;
    var x, y := cs[i], cs[i + 1];
    assert x == t[a..a + maxChars] && |x| == maxChars;
    assert y == t[b..Min(b + maxChars, |t|)] && overlap <= |y|;
    assert x[|x| - overlap..] == t[b..a + maxChars];
    assert y[..overlap] == t[b..b + overlap];
  }

  /** Every window after the first with its first `overlap` characters dropped (`c[overlap:]`), run together. */
  function DropOverlaps(cs: seq<string>, overlap: nat): string
  {
    if cs == [] then [] else DropFront(cs[0], overlap) + DropOverlaps(cs[1..], overlap)
  }

  /** The first window followed by every later window minus its overlap. */
  function Stitch(cs: seq<string>, overlap: nat): string
  {
    if cs == [] then [] else cs[0] + DropOverlaps(cs[1..], overlap)
  }

  lemma {:induction false} DropOverlapsFrom(t: string, start: nat, maxChars: int, overlap: nat)
    requires ValidSizes(maxChars, overlap) && start < |t| && start + overlap <= |t|
    ensures DropOverlaps(ChunksFrom(t, start, maxChars, overlap), overlap) == t[start + overlap..]
    decreases |t| - start
  {
    var cs := ChunksFrom(t, start, maxChars, overlap);
    var end := Min(start + maxChars, |t|);
    ChunksFromUnfold(t, start, maxChars, overlap);
    assert cs[0] == t[start..end];
    DropFrontOfSlice(t, start, end, overlap);
    if |cs| == 1 {
      assert cs[1..] == [];
      assert t[start + overlap..end] + [] == t[start + overlap..];
    } else {
      DropOverlapsFrom(t, end - overlap, maxChars, overlap);
      SlicesJoin(t, start + overlap, end);
    }
  }

  /** Dropping `k` characters of the slice `t[a..b]` leaves `t[a + k..b]`. */
  lemma DropFrontOfSlice(t: string, a: nat, b: nat, k: nat)
    requires a + k <= b <= |t|
    ensures DropFront(t[a..b], k) == t[a + k..b]
  {
  }

  /** Two adjacent slices of `t` join into one. */
  lemma SlicesJoin(t: string, a: nat, b: nat)
    requires a <= b <= |t|
    ensures t[a..b] + t[b..] == t[a..]
  {
  }

  /**
   * With `0 <= overlap < max_chars`, the first window followed by each later window minus its
   * first `overlap` characters rebuilds the stripped text: the windows cover it with no gap.
   */
  lemma ChunksRebuildStrippedText(text: string, maxChars: int, overlap: nat)
    requires ValidSizes(maxChars, overlap)
    ensures Stitch(Chunks(text, maxChars, overlap), overlap) == Strip(text)
  {
    var t := Strip(text);
    if t != [] {
      var cs := ChunksFrom(t, 0, maxChars, overlap);
      var end := Min(maxChars, |t|);
      if end == |t| {
        assert t[0..|t|] == t;
        assert cs == [t];
      } else {
        var next := end - overlap;
        assert 0 <= next < |t| && next == Max(0, end - overlap);
        var rest := ChunksFrom(t, next, maxChars, overlap);
        assert cs == [t[0..end]] + rest;
        assert cs[1..] == rest;
        DropOverlapsFrom(t, next, maxChars, overlap);
        assert t[0..end] + t[end..] == t;
      }
    }
  }
}

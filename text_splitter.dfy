/**
 * The overlapping-window text splitter (`SimpleTextSplitter`).
 *
 * `Run` is the `while` loop of `split_text` as written, bounded by a number
 * of iterations (`fuel`) because, with a positive overlap, the loop does not
 * exit.  `Windows` is the same loop with the missing exit (stop once a window
 * reaches the end of the text); it is the splitter the indexer uses.
 */
module TextSplitter {
  import opened Strings

  const CHUNK_SIZE: nat := 2500
  const CHUNK_OVERLAP: nat := 300

  /** Exclusive end of the window that starts at `start`: `min(start + size, len)`. */
  function ChunkEnd(start: nat, size: nat, len: nat): nat {
    if start + size <= len then start + size else len
  }

  /** The start the loop moves to: `end - overlap`, clamped at 0. */
  function Next(start: nat, size: nat, overlap: int, len: nat): nat {
    var s := ChunkEnd(start, size, len) - overlap;
    if s < 0 then 0 else s
  }

  /** What at most `fuel` iterations of the loop emit, and whether the loop exited. */
  datatype Outcome = Outcome(chunks: seq<string>, halted: bool)

  function Run(t: string, size: nat, overlap: int, start: nat, fuel: nat): Outcome
    decreases fuel
  {
    if start >= |t| then Outcome([], true)
    else if fuel == 0 then Outcome([], false)
    else
      var rest := Run(t, size, overlap, Next(start, size, overlap, |t|), fuel - 1);
      Outcome([t[start..ChunkEnd(start, size, |t|)]] + rest.chunks, rest.halted)
  }

  /** One iteration: the window at `start`, then what the loop emits from the next start. */
  lemma RunStep(t: string, size: nat, overlap: int, start: nat, fuel: nat)
    requires start < |t| && fuel > 0
    ensures var rest := Run(t, size, overlap, Next(start, size, overlap, |t|), fuel - 1);
      Run(t, size, overlap, start, fuel) == Outcome([t[start..ChunkEnd(start, size, |t|)]] + rest.chunks, rest.halted)
  {
  }

  lemma AppendAssoc(cs: seq<string>, c: string, rest: seq<string>)
    ensures cs + ([c] + rest) == (cs + [c]) + rest
  {
  }

  /** `c` is the window of `t` that starts at some offset inside `t`. */
  ghost predicate IsWindow(t: string, size: nat, c: string) {
    exists s: nat :: s < |t| && c == t[s..ChunkEnd(s, size, |t|)]
  }

  /** Every chunk the loop emits is a window of the text, no longer than `size`. */
  lemma {:induction false} RunChunksAreWindows(t: string, size: nat, overlap: int, start: nat, fuel: nat)
    ensures var cs := Run(t, size, overlap, start, fuel).chunks;
      |cs| <= fuel &&
      forall i :: 0 <= i < |cs| ==> IsWindow(t, size, cs[i]) && |cs[i]| <= size && (size > 0 ==> |cs[i]| > 0)
    decreases fuel
  {
    if start < |t| && fuel > 0 {
      var next := Next(start, size, overlap, |t|);
      RunChunksAreWindows(t, size, overlap, next, fuel - 1);
      var c := t[start..ChunkEnd(start, size, |t|)];
      assert IsWindow(t, size, c);
      var cs := Run(t, size, overlap, start, fuel).chunks;
      assert cs == [c] + Run(t, size, overlap, next, fuel - 1).chunks;
    }
  }

  /**
   * With no overlap and a positive size the loop exits within
   * ceil((|t| - start) / size) iterations, every chunk is non-empty, every
   * chunk but the last is exactly `size` long, and the chunks concatenate
   * back to the text.
   */
  lemma ZeroOverlapSplits(t: string, size: nat, start: nat, fuel: nat)
    requires size > 0 && start <= |t| && fuel * size >= |t| - start
    ensures var r := Run(t, size, 0, start, fuel);
      r.halted && Concat(r.chunks) == t[start..] &&
      (forall i :: 0 <= i < |r.chunks| ==> 0 < |r.chunks[i]| <= size) &&
      (forall i :: 0 <= i < |r.chunks| - 1 ==> |r.chunks[i]| == size)
  {
    WindowsAgreeAtZeroOverlap(t, size, start, fuel);
    WindowsFull(t, size, 0, start);
    WindowsStitch(t, size, 0, start);
    StitchWithoutOverlap(Windows(t, size, 0, start));
  }

  /**
   * With a positive overlap the loop never exits on a non-empty text: every
   * new start stays below the length, so each of the `fuel` iterations
   * emits a chunk and none of them ends the loop.
   */
  lemma {:induction false} PositiveOverlapNeverHalts(t: string, size: nat, overlap: int, start: nat, fuel: nat)
    requires overlap > 0 && start < |t|
    ensures !Run(t, size, overlap, start, fuel).halted
    ensures |Run(t, size, overlap, start, fuel).chunks| == fuel
    decreases fuel
  {
    if fuel > 0 {
      PositiveOverlapNeverHalts(t, size, overlap, Next(start, size, overlap, |t|), fuel - 1);
    }
  }

  /**
   * Once a window reaches the end of the text, the next start is
   * `max(0, |t| - overlap)`; when `overlap <= size` that start is a fixed
   * point of `Next`, and from there the loop emits the same tail chunk for
   * ever.
   */
  lemma {:induction false} StuckAtTail(t: string, size: nat, overlap: nat, fuel: nat)
    requires 0 < overlap <= size && |t| > 0
    ensures var s := if |t| < overlap then 0 else |t| - overlap;
      s < |t| &&
      (forall start: nat :: start < |t| && ChunkEnd(start, size, |t|) == |t| ==> Next(start, size, overlap, |t|) == s) &&
      Next(s, size, overlap, |t|) == s &&
      Run(t, size, overlap, s, fuel) == Outcome(seq(fuel, _ => t[s..]), false)
    decreases fuel
  {
    var s := if |t| < overlap then 0 else |t| - overlap;
    assert ChunkEnd(s, size, |t|) == |t|;
    assert t[s..ChunkEnd(s, size, |t|)] == t[s..];
    if fuel > 0 {
      StuckAtTail(t, size, overlap, fuel - 1);
      assert Run(t, size, overlap, s, fuel).chunks == [t[s..]] + Run(t, size, overlap, s, fuel - 1).chunks;
      assert Run(t, size, overlap, s, fuel).chunks == [t[s..]] + seq(fuel - 1, _ => t[s..]);
      assert [t[s..]] + seq(fuel - 1, _ => t[s..]) == seq(fuel, _ => t[s..]);
    }
  }

  /**
   * The configuration the indexer uses (2500/300) on a 5000-character text:
   * windows [0,2500), [2200,4700), [4400,5000), then [4700,5000) again and
   * again, without the loop ever exiting.
   */
  lemma DefaultConfigLoops(t: string)
    requires |t| == 5000
    ensures Run(t, CHUNK_SIZE, CHUNK_OVERLAP, 0, 5) ==
      Outcome([t[0..2500], t[2200..4700], t[4400..5000], t[4700..5000], t[4700..5000]], false)
  {
    var r4 := Run(t, 2500, 300, 4700, 1);
    assert r4 == Outcome([t[4700..5000]], false) by {
      assert Run(t, 2500, 300, 4700, 0) == Outcome([], false);
    }
    assert Run(t, 2500, 300, 4700, 2) == Outcome([t[4700..5000], t[4700..5000]], false);
    assert Run(t, 2500, 300, 4400, 3) == Outcome([t[4400..5000], t[4700..5000], t[4700..5000]], false);
    assert Run(t, 2500, 300, 2200, 4) == Outcome([t[2200..4700], t[4400..5000], t[4700..5000], t[4700..5000]], false);
  }

  /**
   * Consecutive chunks share exactly `overlap` characters: the last
   * `overlap` characters of a chunk at least that long are the first
   * `overlap` characters of the next one.
   */
  ghost predicate ConsecutiveOverlap(cs: seq<string>, overlap: nat) {
    |cs| < 2 ||
    ((overlap <= |cs[0]| ==> overlap <= |cs[1]| && cs[0][|cs[0]| - overlap..] == cs[1][..overlap]) &&
     ConsecutiveOverlap(cs[1..], overlap))
  }

  /** `ConsecutiveOverlap` at a given position. */
  lemma {:induction false} ConsecutiveOverlapAt(cs: seq<string>, overlap: nat, i: nat)
    requires ConsecutiveOverlap(cs, overlap) && i + 1 < |cs| && overlap <= |cs[i]|
    ensures overlap <= |cs[i + 1]| && cs[i][|cs[i]| - overlap..] == cs[i + 1][..overlap]
  {
    if i > 0 {
      ConsecutiveOverlapAt(cs[1..], overlap, i - 1);
    }
  }

  /** While a window does not reach the end, the next start is `start + size - overlap`. */
  lemma NextInsideText(t: string, size: nat, overlap: nat, start: nat)
    requires overlap < size && start + size < |t|
    ensures Next(start, size, overlap, |t|) == start + size - overlap
  {
  }

  /** The loop as written keeps the overlap between consecutive chunks. */
  lemma {:induction false} RunConsecutiveOverlap(t: string, size: nat, overlap: nat, start: nat, fuel: nat)
    requires overlap < size
    ensures ConsecutiveOverlap(Run(t, size, overlap, start, fuel).chunks, overlap)
    decreases fuel
  {
    if start < |t| && fuel > 0 {
      var next := Next(start, size, overlap, |t|);
      var c := t[start..ChunkEnd(start, size, |t|)];
      var rest := Run(t, size, overlap, next, fuel - 1).chunks;
      assert ConsecutiveOverlap([c] + rest, overlap) by {
        RunConsecutiveOverlap(t, size, overlap, next, fuel - 1);
        RunFirstOverlap(t, size, overlap, start, fuel);
        ConsecutiveOverlapCons(c, rest, overlap);
      }
      RunStep(t, size, overlap, start, fuel);
    }
  }

  /** The first chunk of a run overlaps the second one. */
  lemma RunFirstOverlap(t: string, size: nat, overlap: nat, start: nat, fuel: nat)
    requires overlap < size && start < |t| && fuel > 0
    ensures var c := t[start..ChunkEnd(start, size, |t|)];
      var rest := Run(t, size, overlap, Next(start, size, overlap, |t|), fuel - 1).chunks;
      rest != [] && overlap <= |c| ==> overlap <= |rest[0]| && c[|c| - overlap..] == rest[0][..overlap]
  {
    var e := ChunkEnd(start, size, |t|);
    var next := Next(start, size, overlap, |t|);
    var rest := Run(t, size, overlap, next, fuel - 1).chunks;
    if rest != [] && overlap <= e - start {
      var e2 := ChunkEnd(next, size, |t|);
      assert next == e - overlap && next < |t| && fuel - 1 > 0 && e <= e2;
      assert rest[0] == t[next..e2] by {
        RunStep(t, size, overlap, next, fuel - 1);
      }
      SliceOverlap(t, start, e, e2, overlap);
    }
  }

  /** The last `overlap` characters of `t[a..e]` are the first `overlap` characters of `t[e - overlap..e2]`. */
  lemma SliceOverlap(t: string, a: nat, e: nat, e2: nat, overlap: nat)
    requires a <= e <= e2 <= |t| && overlap <= e - a
    ensures t[a..e][e - a - overlap..] == t[e - overlap..e2][..overlap]
  {
    assert t[a..e][e - a - overlap..] == t[e - overlap..e];
    assert t[e - overlap..e2][..overlap] == t[e - overlap..e];
  }

  /** A chunk that overlaps the first of a run of overlapping chunks can go in front of them. */
  lemma ConsecutiveOverlapCons(c: string, rest: seq<string>, overlap: nat)
    requires ConsecutiveOverlap(rest, overlap)
    requires rest != [] && overlap <= |c| ==> overlap <= |rest[0]| && c[|c| - overlap..] == rest[0][..overlap]
    ensures ConsecutiveOverlap([c] + rest, overlap)
  {
    assert ([c] + rest)[1..] == rest;
  }

  /**
   * The loop with the exit it lacks: stop once a window reaches the end of
   * the text.  Needs `overlap < size` so that every other window moves the
   * start forward.
   */
  function Windows(t: string, size: nat, overlap: nat, start: nat): seq<string>
    requires overlap < size
    decreases |t| - start
  {
    if start >= |t| then []
    else if ChunkEnd(start, size, |t|) == |t| then [t[start..]]
    else [t[start..start + size]] + Windows(t, size, overlap, Next(start, size, overlap, |t|))
  }

  /** Drops the first `k` characters of each chunk. */
  function DropEach(cs: seq<string>, k: nat): string {
    if cs == [] then [] else (if k <= |cs[0]| then cs[0][k..] else []) + DropEach(cs[1..], k)
  }

  /** Undoes the overlap: the first chunk, then every later chunk without its first `overlap` characters. */
  function Stitch(cs: seq<string>, overlap: nat): string {
    if cs == [] then [] else cs[0] + DropEach(cs[1..], overlap)
  }

  /** Every chunk is non-empty and at most `size` long, and all but the last are exactly `size` long. */
  ghost predicate FullWindows(cs: seq<string>, size: nat) {
    (forall i :: 0 <= i < |cs| ==> 0 < |cs[i]| <= size) &&
    (forall i :: 0 <= i < |cs| - 1 ==> |cs[i]| == size)
  }

  lemma FullWindowsCons(w: string, rest: seq<string>, size: nat)
    requires FullWindows(rest, size) && 0 < |w| <= size && (rest != [] ==> |w| == size)
    ensures FullWindows([w] + rest, size)
  {
    var cs := [w] + rest;
    forall i | 0 < i < |cs| ensures cs[i] == rest[i - 1] { }
  }

  /**
   * The corrected windows: none for an empty remainder; each one non-empty,
   * and every one but the last exactly `size` long.
   */
  lemma {:induction false} WindowsFull(t: string, size: nat, overlap: nat, start: nat)
    requires overlap < size && start <= |t|
    ensures var cs := Windows(t, size, overlap, start);
      (cs == [] <==> start == |t|) && FullWindows(cs, size)
    decreases |t| - start
  {
    if start < |t| {
      var e := ChunkEnd(start, size, |t|);
      WindowsStep(t, size, overlap, start);
      if e == |t| {
        FullWindowsCons(t[start..], [], size);
      } else {
        var next := Next(start, size, overlap, |t|);
        WindowsFull(t, size, overlap, next);
        FullWindowsCons(t[start..e], Windows(t, size, overlap, next), size);
      }
    }
  }

  /** Consecutive corrected windows share `overlap` characters. */
  lemma {:induction false} WindowsOverlap(t: string, size: nat, overlap: nat, start: nat)
    requires overlap < size && start <= |t|
    ensures ConsecutiveOverlap(Windows(t, size, overlap, start), overlap)
    decreases |t| - start
  {
    if start < |t| {
      var e := ChunkEnd(start, size, |t|);
      if e == |t| {
        WindowsStep(t, size, overlap, start);
        ConsecutiveOverlapCons(t[start..], [], overlap);
      } else {
        var next := Next(start, size, overlap, |t|);
        var rest := Windows(t, size, overlap, next);
        var c := t[start..e];
        assert ConsecutiveOverlap([c] + rest, overlap) by {
          WindowsOverlap(t, size, overlap, next);
          WindowsFirstOverlap(t, size, overlap, start);
          ConsecutiveOverlapCons(c, rest, overlap);
        }
        WindowsStep(t, size, overlap, start);
      }
    }
  }

  /** A window that does not reach the end overlaps the first window after it. */
  lemma WindowsFirstOverlap(t: string, size: nat, overlap: nat, start: nat)
    requires overlap < size && start < |t| && ChunkEnd(start, size, |t|) < |t|
    ensures var c := t[start..ChunkEnd(start, size, |t|)];
      var rest := Windows(t, size, overlap, Next(start, size, overlap, |t|));
      rest != [] && overlap <= |c| && overlap <= |rest[0]| && c[|c| - overlap..] == rest[0][..overlap]
  {
    var e := ChunkEnd(start, size, |t|);
    var next := Next(start, size, overlap, |t|);
    var e2 := ChunkEnd(next, size, |t|);
    var rest := Windows(t, size, overlap, next);
    assert next == e - overlap && next < |t| && e <= e2;
    assert rest != [] && rest[0] == t[next..e2] by {
      WindowsStep(t, size, overlap, next);
      SliceToEnd(t, next);
    }
    SliceOverlap(t, start, e, e2, overlap);
  }

  lemma WindowsStitch(t: string, size: nat, overlap: nat, start: nat)
    requires overlap < size && start <= |t|
    ensures Stitch(Windows(t, size, overlap, start), overlap) == t[start..]
  {
    if start < |t| {
      var e := ChunkEnd(start, size, |t|);
      WindowsStep(t, size, overlap, start);
      if e == |t| {
        StitchCons(t[start..], [], overlap);
      } else {
        var next := Next(start, size, overlap, |t|);
        DropWindows(t, size, overlap, next);
        StitchCons(t[start..e], Windows(t, size, overlap, next), overlap);
        SliceSplit(t, start, e);
      }
    }
  }

  /** One iteration of the corrected loop. */
  lemma WindowsStep(t: string, size: nat, overlap: nat, start: nat)
    requires overlap < size && start < |t|
    ensures var e := ChunkEnd(start, size, |t|);
      Windows(t, size, overlap, start) ==
        if e == |t| then [t[start..]] + []
        else [t[start..e]] + Windows(t, size, overlap, Next(start, size, overlap, |t|))
  {
    assert [t[start..]] + [] == [t[start..]];
  }

  lemma StitchCons(w: string, rest: seq<string>, overlap: nat)
    ensures Stitch([w] + rest, overlap) == w + DropEach(rest, overlap)
  {
    assert ([w] + rest)[1..] == rest;
  }

  lemma SliceSplit(t: string, a: nat, e: nat)
    requires a <= e <= |t|
    ensures t[a..] == t[a..e] + t[e..]
  {
  }

  /**
   * Dropping the overlap from every window that starts at `start` leaves
   * the text from `start + overlap` on.
   */
  lemma {:induction false} DropWindows(t: string, size: nat, overlap: nat, start: nat)
    requires overlap < size && start < |t| && start + overlap <= |t|
    ensures DropEach(Windows(t, size, overlap, start), overlap) == t[start + overlap..]
    decreases |t| - start
  {
    var e := ChunkEnd(start, size, |t|);
    if e == |t| {
      DropLastWindow(t, size, overlap, start);
    } else {
      var next := Next(start, size, overlap, |t|);
      var rest := Windows(t, size, overlap, next);
      assert next + overlap == e;
      assert DropEach(rest, overlap) == t[e..] by {
        DropWindows(t, size, overlap, next);
      }
      assert DropEach([t[start..e]] + rest, overlap) == t[start + overlap..e] + t[e..] by {
        DropCons(t[start..e], rest, overlap);
        SliceDrop(t, start, e, overlap);
      }
      assert Windows(t, size, overlap, start) == [t[start..e]] + rest by {
        WindowsStep(t, size, overlap, start);
      }
      SliceSplit(t, start + overlap, e);
    }
  }

  lemma DropLastWindow(t: string, size: nat, overlap: nat, start: nat)
    requires overlap < size && start < |t| && start + overlap <= |t| && ChunkEnd(start, size, |t|) == |t|
    ensures DropEach(Windows(t, size, overlap, start), overlap) == t[start + overlap..]
  {
    WindowsStep(t, size, overlap, start);
    DropCons(t[start..], [], overlap);
    SliceToEnd(t, start);
    SliceDrop(t, start, |t|, overlap);
    SliceToEnd(t, start + overlap);
  }

  lemma DropCons(w: string, rest: seq<string>, k: nat)
    requires k <= |w|
    ensures DropEach([w] + rest, k) == w[k..] + DropEach(rest, k)
  {
    assert ([w] + rest)[1..] == rest;
  }

  lemma SliceDrop(t: string, a: nat, e: nat, k: nat)
    requires a + k <= e <= |t|
    ensures t[a..e][k..] == t[a + k..e]
  {
  }

  lemma SliceToEnd(t: string, a: nat)
    requires a <= |t|
    ensures t[a..|t|] == t[a..]
  {
  }

  /** A non-empty text no longer than `size` is a single window. */
  lemma ShortTextIsOneWindow(t: string, size: nat, overlap: nat)
    requires overlap < size && 0 < |t| <= size
    ensures Windows(t, size, overlap, 0) == [t]
  {
    assert t[0..] == t;
  }

  /**
   * With no overlap and enough iterations, the loop as written exits and
   * emits exactly the corrected windows.
   */
  lemma {:induction false} WindowsAgreeAtZeroOverlap(t: string, size: nat, start: nat, fuel: nat)
    requires size > 0 && start <= |t| && fuel * size >= |t| - start
    ensures Run(t, size, 0, start, fuel) == Outcome(Windows(t, size, 0, start), true)
    decreases fuel
  {
    if start < |t| {
      var e := ChunkEnd(start, size, |t|);
      assert (fuel - 1) * size == fuel * size - size;
      WindowsAgreeAtZeroOverlap(t, size, e, fuel - 1);
      if e == |t| {
        assert t[start..e] == t[start..];
      }
    }
  }

  /** Without overlap, stitching is plain concatenation. */
  lemma {:induction false} StitchWithoutOverlap(cs: seq<string>)
    ensures Stitch(cs, 0) == Concat(cs)
  {
    if cs != [] {
      DropNothing(cs[1..]);
    }
  }

  lemma {:induction false} DropNothing(cs: seq<string>)
    ensures DropEach(cs, 0) == Concat(cs)
  {
    if cs != [] {
      DropNothing(cs[1..]);
      assert cs[0][0..] == cs[0];
    }
  }

  /** The 5000-character scenario under the corrected loop: three windows. */
  lemma DefaultConfigWindows(t: string)
    requires |t| == 5000
    ensures Windows(t, CHUNK_SIZE, CHUNK_OVERLAP, 0) == [t[0..2500], t[2200..4700], t[4400..5000]]
  {
    assert t[4400..] == t[4400..5000];
    assert Windows(t, 2500, 300, 4400) == [t[4400..5000]];
    assert Windows(t, 2500, 300, 2200) == [t[2200..4700], t[4400..5000]];
  }

  class SimpleTextSplitter {
    const chunkSize: nat
    const chunkOverlap: int

    constructor (chunkSize: nat, chunkOverlap: int)
      ensures this.chunkSize == chunkSize && this.chunkOverlap == chunkOverlap
    {
      this.chunkSize := chunkSize;
      this.chunkOverlap := chunkOverlap;
    }

    /**
     * `split_text` as written, run for at most `fuel` iterations; `halted`
     * says whether the loop exited on its own.
     */
    method SplitText(text: string, fuel: nat) returns (chunks: seq<string>, halted: bool)
      ensures Outcome(chunks, halted) == Run(text, chunkSize, chunkOverlap, 0, fuel)
      ensures text == [] ==> chunks == [] && halted
    {
      chunks := [];
      var start: nat := 0;
      var length := |text|;
      var steps: nat := 0;
      ghost var whole := Run(text, chunkSize, chunkOverlap, 0, fuel);
      while start < length && steps < fuel
        invariant steps <= fuel
        invariant whole.chunks == chunks + Run(text, chunkSize, chunkOverlap, start, fuel - steps).chunks
        invariant whole.halted == Run(text, chunkSize, chunkOverlap, start, fuel - steps).halted
        decreases fuel - steps
      {
        var end := if start + chunkSize <= length then start + chunkSize else length;
        var chunk := text[start..end];
        var s := end - chunkOverlap;
        if s < 0 {
          s := 0;
        }
        ghost var rest := Run(text, chunkSize, chunkOverlap, s, fuel - steps - 1);
        assert end == ChunkEnd(start, chunkSize, length) && s == Next(start, chunkSize, chunkOverlap, length);
        RunStep(text, chunkSize, chunkOverlap, start, fuel - steps);
        AppendAssoc(chunks, chunk, rest.chunks);
        chunks := chunks + [chunk];
        start := s;
        steps := steps + 1;
      }
      assert chunks + [] == chunks;
      halted := start >= length;
    }

    /**
     * `split_text` with the exit it lacks.  A configuration whose overlap is
     * negative or not smaller than the size is refused (`None`).
     */
    method SplitTextCorrected(text: string) returns (r: Option<seq<string>>)
      ensures r.None? <==> !(0 <= chunkOverlap < chunkSize)
      ensures r.Some? ==> r.value == Windows(text, chunkSize, chunkOverlap as nat, 0)
    {
      if !(0 <= chunkOverlap < chunkSize) {
        return None;
      }
      var overlap: nat := chunkOverlap as nat;
      var chunks: seq<string> := [];
      var start: nat := 0;
      var length := |text|;
      while start < length
        invariant Windows(text, chunkSize, overlap, 0) == chunks + Windows(text, chunkSize, overlap, start)
        decreases length - start
      {
        var end := if start + chunkSize <= length then start + chunkSize else length;
        var chunk := text[start..end];
        assert end == ChunkEnd(start, chunkSize, length);
        WindowsStep(text, chunkSize, overlap, start);
        if end == length {
          SliceToEnd(text, start);
          AppendAssoc(chunks, chunk, []);
          chunks := chunks + [chunk];
          assert chunks + [] == chunks;
          break;
        }
        assert end - overlap == Next(start, chunkSize, overlap, length);
        AppendAssoc(chunks, chunk, Windows(text, chunkSize, overlap, end - overlap));
        chunks := chunks + [chunk];
        start := end - overlap;
      }
      assert chunks + [] == chunks;
      return Some(chunks);
    }
  }
}

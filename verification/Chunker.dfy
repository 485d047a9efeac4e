/**
 The text chunker: overlapping windows that end at a natural boundary when one is near, trimmed
 without losing track of where they came from.
 */
module Chunking {

  datatype Config = Config(chunkSize: nat, chunkOverlap: nat, minChunkSize: nat, maxLookback: nat)

  /** Unicode White_Space, as `char::is_whitespace` has it. */
  predicate IsWhitespace(c: char)
  {
    var n := c as int;
    || 0x09 <= n <= 0x0D || n == 0x20 || n == 0x85 || n == 0xA0 || n == 0x1680
    || 0x2000 <= n <= 0x200A || n == 0x2028 || n == 0x2029 || n == 0x202F || n == 0x205F || n == 0x3000
  }

  /** Chinese and Latin sentence ends, ellipsis and newline. */
  predicate IsBoundary(c: char)
  {
    c in {'\U{3002}', '\U{FF01}', '\U{FF1F}', '\U{FF1B}', '\U{FF1A}', '\U{2026}', '.', '!', '?', '\n'}
  }

  function Min(a: nat, b: nat): nat { if a <= b then a else b }
  function Max(a: nat, b: nat): nat { if a <= b then b else a }
  function SaturatingSub(a: nat, b: nat): nat { if b <= a then a - b else 0 }

  // ---------------------------------------------------------------- windows

  datatype Window = Window(start: nat, end: nat, natural: bool)

  /** One past the last boundary character in [lo, hi), or lo when there is none. */
  function CutAfter(text: string, lo: nat, hi: nat): (cut: nat)
    requires lo <= hi <= |text|
    ensures lo <= cut <= hi
  {
    if hi == lo then lo
    else if IsBoundary(text[hi - 1]) then hi
    else CutAfter(text, lo, hi - 1)
  }

  lemma {:induction false} CutAfterIsLast(text: string, lo: nat, hi: nat)
    requires lo <= hi <= |text|
    ensures var cut := CutAfter(text, lo, hi);
            && (cut > lo ==> IsBoundary(text[cut - 1]))
            && (forall i | cut <= i < hi :: !IsBoundary(text[i]))
  {
    if hi > lo && !IsBoundary(text[hi - 1]) {
      CutAfterIsLast(text, lo, hi - 1);
    }
  }

  function RawEnd(text: string, cfg: Config, start: nat): nat
  {
    Min(start + cfg.chunkSize, |text|)
  }

  function WindowAt(text: string, cfg: Config, start: nat): (w: Window)
    requires start < |text|
    ensures w.start == start && start <= w.end <= RawEnd(text, cfg, start)
  {
    var end := RawEnd(text, cfg, start);
    if end == |text| then Window(start, end, true)
    else
      var limit := Max(SaturatingSub(end, cfg.maxLookback), start);
      var cut := CutAfter(text, limit, end);
      if cut > limit then Window(start, cut, true) else Window(start, end, false)
  }

  function NextStart(text: string, cfg: Config, w: Window): nat
  {
    if w.end >= |text| then |text| else Max(SaturatingSub(w.end, cfg.chunkOverlap), w.start + 1)
  }

  function Windows(text: string, cfg: Config, start: nat): seq<Window>
    decreases |text| - start
  {
    if start >= |text| then []
    else
      var w := WindowAt(text, cfg, start);
      [w] + Windows(text, cfg, NextStart(text, cfg, w))
  }

  function AllWindows(text: string, cfg: Config): seq<Window>
  {
    Windows(text, cfg, 0)
  }

  // ---------------------------------------------------------------- trimming

  function LeadCount(t: string): (n: nat)
    ensures n <= |t|
  {
    if t == [] || !IsWhitespace(t[0]) then 0 else 1 + LeadCount(t[1..])
  }

  lemma {:induction false} LeadCountIsMaximal(t: string)
    ensures forall i | 0 <= i < LeadCount(t) :: IsWhitespace(t[i])
    ensures LeadCount(t) < |t| ==> !IsWhitespace(t[LeadCount(t)])
  {
    if t != [] && IsWhitespace(t[0]) {
      LeadCountIsMaximal(t[1..]);
      forall i | 0 < i < LeadCount(t) ensures IsWhitespace(t[i]) { assert t[i] == t[1..][i - 1]; }
    }
  }

  function TailCount(t: string): (n: nat)
    ensures n <= |t|
  {
    if t == [] || !IsWhitespace(t[|t| - 1]) then 0 else 1 + TailCount(t[..|t| - 1])
  }

  lemma {:induction false} TailCountIsMaximal(t: string)
    ensures forall i | |t| - TailCount(t) <= i < |t| :: IsWhitespace(t[i])
    ensures TailCount(t) < |t| ==> !IsWhitespace(t[|t| - TailCount(t) - 1])
  {
    if t != [] && IsWhitespace(t[|t| - 1]) {
      TailCountIsMaximal(t[..|t| - 1]);
    }
  }

  /** `str::trim`. */
  function Trim(s: string): string
  {
    var left := s[LeadCount(s)..];
    left[..|left| - TailCount(left)]
  }

  datatype Chunk = Chunk(text: string, startOffset: nat, endOffset: nat, sequence: nat, isNatural: bool)

  /** A chunk while it is being made. */
  class ChunkBuilder {
    var text: string
    var startOffset: nat
    var endOffset: nat
    const sequence: nat
    const isNatural: bool

    constructor (text: string, start: nat, end: nat, sequence: nat, isNatural: bool)
      ensures this.text == text && startOffset == start && endOffset == end
      ensures this.sequence == sequence && this.isNatural == isNatural
    {
      this.text := text;
      this.startOffset := start;
      this.endOffset := end;
      this.sequence := sequence;
      this.isNatural := isNatural;
    }

    /** Leading whitespace moves the start forward, trailing whitespace the end back, character by character. */
    method SmartTrim()
      requires |text| <= endOffset
      modifies this
      ensures var lead := LeadCount(old(text));
              var tail := TailCount(old(text)[lead..]);
              && text == old(text)[lead..|old(text)| - tail]
              && startOffset == old(startOffset) + lead
              && endOffset == old(endOffset) - tail
      ensures old(endOffset - startOffset) == |old(text)| ==> endOffset - startOffset == |text|
    {
      var original := text;
      var trimmed := original[LeadCount(original)..];
      var leadSpaces := |original| - |trimmed|;
      if leadSpaces > 0 {
        startOffset := startOffset + leadSpaces;
      }
      var finalTrimmed := trimmed[..|trimmed| - TailCount(trimmed)];
      var tailSpaces := |trimmed| - |finalTrimmed|;
      if tailSpaces > 0 {
        endOffset := endOffset - tailSpaces;
      }
      text := finalTrimmed;
    }

    function Value(): Chunk
      reads this
    {
      Chunk(text, startOffset, endOffset, sequence, isNatural)
    }
  }

  function TrimStart(text: string, w: Window): (a: nat)
    requires w.start <= w.end <= |text|
    ensures w.start <= a <= w.end
  {
    w.start + LeadCount(text[w.start..w.end])
  }

  function TrimEnd(text: string, w: Window): (b: nat)
    requires w.start <= w.end <= |text|
    ensures TrimStart(text, w) <= b <= w.end
  {
    var whole := text[w.start..w.end];
    w.end - TailCount(whole[LeadCount(whole)..])
  }

  lemma TrimStartPositions(text: string, w: Window)
    requires w.start <= w.end <= |text|
    ensures var a := TrimStart(text, w);
            && (forall p | w.start <= p < a :: IsWhitespace(text[p]))
            && (a < w.end ==> !IsWhitespace(text[a]))
  {
    var whole := text[w.start..w.end];
    LeadCountIsMaximal(whole);
    forall p | w.start <= p < w.end ensures text[p] == whole[p - w.start] {}
  }

  lemma TrimEndPositions(text: string, w: Window)
    requires w.start <= w.end <= |text|
    ensures var a, b := TrimStart(text, w), TrimEnd(text, w);
            && (forall p | b <= p < w.end :: IsWhitespace(text[p]))
            && (a < b ==> !IsWhitespace(text[b - 1]))
  {
    var a := TrimStart(text, w);
    var whole := text[w.start..w.end];
    var rest := whole[LeadCount(whole)..];
    TailCountIsMaximal(rest);
    forall p | a <= p < w.end ensures text[p] == rest[p - a] {
      assert whole[p - w.start] == text[p];
    }
  }

  /** Trimming in the coordinates of the whole text. */
  lemma TrimPositions(text: string, w: Window)
    requires w.start <= w.end <= |text|
    ensures var a, b := TrimStart(text, w), TrimEnd(text, w);
            && (forall p | w.start <= p < a :: IsWhitespace(text[p]))
            && (forall p | b <= p < w.end :: IsWhitespace(text[p]))
            && (a < w.end ==> !IsWhitespace(text[a]))
            && (a < b ==> !IsWhitespace(text[b - 1]))
            && (a == b ==> a == w.end)
  {
    TrimStartPositions(text, w);
    TrimEndPositions(text, w);
  }

  function ChunkOf(text: string, w: Window, sequence: nat): Chunk
    requires w.start <= w.end <= |text|
  {
    var a, b := TrimStart(text, w), TrimEnd(text, w);
    Chunk(text[a..b], a, b, sequence, w.natural)
  }

  /** Small chunks are dropped, except a last one with something in it. */
  predicate Keeps(text: string, cfg: Config, w: Window)
    requires w.start <= w.end <= |text|
  {
    var len := TrimEnd(text, w) - TrimStart(text, w);
    len >= cfg.minChunkSize || (w.end == |text| && len > 0)
  }

  predicate WindowsOk(text: string, ws: seq<Window>)
  {
    forall i | 0 <= i < |ws| :: ws[i].start <= ws[i].end <= |text|
  }

  function Emit(text: string, cfg: Config, ws: seq<Window>): seq<Chunk>
    requires WindowsOk(text, ws)
  {
    if ws == [] then []
    else
      var front := Emit(text, cfg, ws[..|ws| - 1]);
      var w := ws[|ws| - 1];
      if Keeps(text, cfg, w) then front + [ChunkOf(text, w, |front|)] else front
  }

  // ---------------------------------------------------------------- the chunking loop

  datatype ChunkStats = ChunkStats(totalChunks: nat, avgSize: real, naturalSplits: nat)

  function NaturalCount(cs: seq<Chunk>): nat
  {
    if cs == [] then 0 else NaturalCount(cs[..|cs| - 1]) + if cs[|cs| - 1].isNatural then 1 else 0
  }

  function TotalSize(cs: seq<Chunk>): nat
  {
    if cs == [] then 0 else TotalSize(cs[..|cs| - 1]) + |cs[|cs| - 1].text|
  }

  function MeanSize(cs: seq<Chunk>): real
  {
    if |cs| == 0 then 0.0 else Ratio(TotalSize(cs), |cs|)
  }

  function Ratio(x: nat, n: nat): real
    requires n > 0
  {
    x as real / n as real
  }

  lemma {:induction false} WindowsWithin(text: string, cfg: Config, start: nat)
    ensures WindowsOk(text, Windows(text, cfg, start))
    decreases |text| - start
  {
    if start < |text| {
      WindowsWithin(text, cfg, NextStart(text, cfg, WindowAt(text, cfg, start)));
    }
  }

  method FindWindow(text: string, cfg: Config, start: nat) returns (w: Window)
    requires start < |text|
    ensures w == WindowAt(text, cfg, start)
  {
    var end := Min(start + cfg.chunkSize, |text|);
    var isNatural := false;
    if end < |text| {
      var lookbackLimit := Max(SaturatingSub(end, cfg.maxLookback), start);
      ghost var raw := end;
      for i := end downto lookbackLimit
        invariant end == raw && !isNatural
        invariant CutAfter(text, lookbackLimit, raw) == CutAfter(text, lookbackLimit, i)
      {
        if IsBoundary(text[i]) {
          end := i + 1;
          isNatural := true;
          break;
        }
      }
    } else {
      isNatural := true;
    }
    w := Window(start, end, isNatural);
  }

  method MakeChunk(text: string, w: Window, sequence: nat) returns (chunk: Chunk)
    requires w.start <= w.end <= |text|
    ensures chunk == ChunkOf(text, w, sequence)
    ensures |chunk.text| == TrimEnd(text, w) - TrimStart(text, w)
  {
    var whole := text[w.start..w.end];
    var builder := new ChunkBuilder(whole, w.start, w.end, sequence, w.natural);
    builder.SmartTrim();
    ghost var lead := LeadCount(whole);
    TrimSlices(text, w, whole, lead, TailCount(whole[lead..]));
    chunk := builder.Value();
  }

  lemma TrimSlices(text: string, w: Window, whole: string, lead: nat, tail: nat)
    requires w.start <= w.end <= |text| && whole == text[w.start..w.end]
    requires lead == LeadCount(whole) && tail == TailCount(whole[lead..])
    ensures TrimStart(text, w) == w.start + lead && TrimEnd(text, w) == w.end - tail
    ensures whole[lead..|whole| - tail] == text[w.start + lead..w.end - tail]
  {
    SliceCut(text, w.start, w.end, lead, tail);
  }

  lemma SliceCut(text: string, s: nat, e: nat, lead: nat, tail: nat)
    requires s <= e <= |text| && lead + tail <= e - s
    ensures text[s..e][lead..e - s - tail] == text[s + lead..e - tail]
  {
    var cut := text[s..e][lead..e - s - tail];
    forall i | 0 <= i < |cut| ensures cut[i] == text[s + lead..e - tail][i] {
      assert cut[i] == text[s..e][lead + i] == text[s + lead + i];
    }
  }

  method AverageSize(chunks: seq<Chunk>) returns (avg: real)
    ensures avg == MeanSize(chunks)
  {
    var size := 0;
    for i := 0 to |chunks|
      invariant size == TotalSize(chunks[..i])
    {
      assert chunks[..i + 1][..i] == chunks[..i];
      size := size + |chunks[i].text|;
    }
    assert chunks[..|chunks|] == chunks;
    avg := if |chunks| > 0 then Ratio(size, |chunks|) else 0.0;
  }

  lemma EmitSnoc(text: string, cfg: Config, ws: seq<Window>, w: Window)
    requires WindowsOk(text, ws) && w.start <= w.end <= |text|
    ensures WindowsOk(text, ws + [w])
    ensures var front := Emit(text, cfg, ws);
            Emit(text, cfg, ws + [w]) == if Keeps(text, cfg, w) then front + [ChunkOf(text, w, |front|)] else front
  {
  }

  lemma NaturalCountSnoc(cs: seq<Chunk>, c: Chunk)
    ensures NaturalCount(cs + [c]) == NaturalCount(cs) + if c.isNatural then 1 else 0
  {
  }

  /** The windowing loop, for every configuration: it ends, and its safety branch is never taken. */
  method ChunkLoop(text: string, cfg: Config) returns (chunks: seq<Chunk>, naturalSplits: nat)
    ensures WindowsOk(text, AllWindows(text, cfg)) && chunks == Emit(text, cfg, AllWindows(text, cfg))
    ensures naturalSplits == NaturalCount(chunks)
  {
    chunks := [];
    naturalSplits := 0;
    var start, sequence := 0, 0;
    ghost var done: seq<Window> := [];
    while start < |text|
      invariant AllWindows(text, cfg) == done + Windows(text, cfg, start)
      invariant WindowsOk(text, done) && chunks == Emit(text, cfg, done)
      invariant sequence == |chunks| && naturalSplits == NaturalCount(chunks)
      decreases |text| - start
    {
      var w := FindWindow(text, cfg, start);
      var chunk := MakeChunk(text, w, sequence);
      EmitSnoc(text, cfg, done, w);
      if |chunk.text| >= cfg.minChunkSize || (w.end == |text| && chunk.text != []) {
        if w.natural {
          naturalSplits := naturalSplits + 1;
        }
        NaturalCountSnoc(chunks, chunk);
        chunks := chunks + [chunk];
        sequence := sequence + 1;
      }
      var nextStart := if w.end >= |text| then |text| else Max(SaturatingSub(w.end, cfg.chunkOverlap), start + 1);
      if nextStart <= start && w.end < |text| {
        assert false;
      }
      Regroup(done, w, Windows(text, cfg, nextStart));
      done := done + [w];
      start := nextStart;
    }
    NoMoreWindows(text, cfg, start, done);
  }

  lemma NoMoreWindows(text: string, cfg: Config, start: nat, done: seq<Window>)
    requires start >= |text|
    ensures done + Windows(text, cfg, start) == done
  {
  }

  lemma Regroup(a: seq<Window>, w: Window, b: seq<Window>)
    ensures a + ([w] + b) == (a + [w]) + b
  {
  }

  method ChunkText(text: string, cfg: Config) returns (chunks: seq<Chunk>, stats: ChunkStats)
    ensures WindowsOk(text, AllWindows(text, cfg)) && chunks == Emit(text, cfg, AllWindows(text, cfg))
    ensures stats.totalChunks == |chunks| && stats.naturalSplits == NaturalCount(chunks)
    ensures stats.avgSize == MeanSize(chunks)
  {
    var naturalSplits;
    chunks, naturalSplits := ChunkLoop(text, cfg);
    var avg := AverageSize(chunks);
    stats := ChunkStats(|chunks|, avg, naturalSplits);
  }
}

/** What the chunker promises, for every text and every configuration. */
module ChunkingTheorems {
  import opened Elements
  import opened Chunking

  // ---------------------------------------------------------------- one window and the next

  /** A window of a positive size is not empty. */
  lemma WindowNonEmpty(text: string, cfg: Config, start: nat)
    requires cfg.chunkSize >= 1 && start < |text|
    ensures start < WindowAt(text, cfg, start).end
  {
  }

  predicate BoundaryIn(text: string, lo: nat, hi: nat)
  {
    exists i | lo <= i < hi && i < |text| :: IsBoundary(text[i])
  }

  /**
   Where a window ends: at the end of the text when that is within reach; else right after the last
   boundary character of the look-back range; else, when there is none, at its full size.
   */
  lemma WindowIs(text: string, cfg: Config, start: nat)
    requires start < |text|
    ensures var w := WindowAt(text, cfg, start);
            var limit := Max(SaturatingSub(start + cfg.chunkSize, cfg.maxLookback), start);
            if start + cfg.chunkSize >= |text| then w == Window(start, |text|, true)
            else
              && w.start == start
              && (w.natural <==> BoundaryIn(text, limit, start + cfg.chunkSize))
              && (w.natural ==> limit < w.end <= start + cfg.chunkSize && IsBoundary(text[w.end - 1])
                                && !BoundaryIn(text, w.end, start + cfg.chunkSize))
              && (!w.natural ==> w.end == start + cfg.chunkSize)
  {
    var raw := start + cfg.chunkSize;
    if raw < |text| {
      var limit := Max(SaturatingSub(raw, cfg.maxLookback), start);
      CutAfterIsLast(text, limit, raw);
      var cut := CutAfter(text, limit, raw);
      if cut > limit {
        assert IsBoundary(text[cut - 1]) && BoundaryIn(text, limit, raw);
      }
    }
  }

  /** A window that stops short of the text ends after a boundary, or no boundary was within reach. */
  lemma WindowEndIs(text: string, cfg: Config, start: nat)
    requires start < |text| && WindowAt(text, cfg, start).end < |text|
    ensures RawEnd(text, cfg, start) == start + cfg.chunkSize < |text|
    ensures var w := WindowAt(text, cfg, start);
            var raw := start + cfg.chunkSize;
            var limit := Max(SaturatingSub(raw, cfg.maxLookback), start);
            && (forall i | Max(w.end, limit) <= i < raw :: !IsBoundary(text[i]))
            && (w.end == raw || (w.end > limit && IsBoundary(text[w.end - 1])))
            && (w.end == raw ==> (w.natural && IsBoundary(text[w.end - 1]))
                                 || (forall i | limit <= i < raw :: !IsBoundary(text[i])))
  {
    var raw := start + cfg.chunkSize;
    var limit := Max(SaturatingSub(raw, cfg.maxLookback), start);
    CutAfterIsLast(text, limit, Min(raw, |text|));
  }

  /**
   Ends never move backward: although each window may be cut back to a boundary, the next window
   starts inside or right after this one and ends no earlier.
   */
  lemma EndsNeverMoveBack(text: string, cfg: Config, start: nat)
    requires cfg.chunkSize >= 1 && start < |text|
    requires WindowAt(text, cfg, start).end < |text|
    ensures var w := WindowAt(text, cfg, start);
            var next := NextStart(text, cfg, w);
            start < next <= w.end && next < |text| && w.end <= WindowAt(text, cfg, next).end
  {
    var w := WindowAt(text, cfg, start);
    var next := NextStart(text, cfg, w);
    WindowNonEmpty(text, cfg, start);
    WindowEndIs(text, cfg, start);
    if WindowAt(text, cfg, next).end < |text| {
      NoEarlierCut(text, cfg, start, next);
    }
  }

  lemma NoEarlierCut(text: string, cfg: Config, start: nat, next: nat)
    requires cfg.chunkSize >= 1 && start < next < |text|
    requires WindowAt(text, cfg, start).end < |text|
    requires WindowAt(text, cfg, next).end < |text|
    requires next <= WindowAt(text, cfg, start).end
    ensures WindowAt(text, cfg, start).end <= WindowAt(text, cfg, next).end
  {
    var e, e' := WindowAt(text, cfg, start).end, WindowAt(text, cfg, next).end;
    WindowEndIs(text, cfg, start);
    WindowEndIs(text, cfg, next);
    WindowNonEmpty(text, cfg, next);
    var raw, raw' := start + cfg.chunkSize, next + cfg.chunkSize;
    var limit := Max(SaturatingSub(raw, cfg.maxLookback), start);
    var limit' := Max(SaturatingSub(raw', cfg.maxLookback), next);
    assert limit <= limit' && raw < raw';
  }

  /** Consecutive windows share exactly min(overlap, length - 1) characters. */
  lemma SharedPrefix(text: string, cfg: Config, start: nat)
    requires cfg.chunkSize >= 1 && start < |text|
    requires WindowAt(text, cfg, start).end < |text|
    ensures var w := WindowAt(text, cfg, start);
            w.end - NextStart(text, cfg, w) == Min(cfg.chunkOverlap, w.end - w.start - 1)
  {
  }

  /** How far one window advances. */
  lemma Advance(text: string, cfg: Config, start: nat)
    requires start < |text| && WindowAt(text, cfg, start).end < |text|
    ensures NextStart(text, cfg, WindowAt(text, cfg, start))
            >= start + Max(1, SaturatingSub(cfg.chunkSize, cfg.chunkOverlap + cfg.maxLookback))
  {
  }

  // ---------------------------------------------------------------- the sequence of windows

  /** The windows are what the loop visits: each is the window at its start, and the next start follows from it. */
  lemma {:induction false} WindowsChain(text: string, cfg: Config, start: nat, i: nat)
    requires i < |Windows(text, cfg, start)|
    ensures var ws := Windows(text, cfg, start);
            && ws[i].start < |text| && ws[i] == WindowAt(text, cfg, ws[i].start)
            && (i == 0 ==> ws[i].start == start)
            && (i + 1 < |ws| ==> ws[i].end < |text| && ws[i + 1].start == NextStart(text, cfg, ws[i]))
    decreases |text| - start
  {
    var w := WindowAt(text, cfg, start);
    var next := NextStart(text, cfg, w);
    var rest := Windows(text, cfg, next);
    assert Windows(text, cfg, start) == [w] + rest;
    if i > 0 {
      WindowsChain(text, cfg, next, i - 1);
    } else if rest != [] {
      WindowsChain(text, cfg, next, 0);
    }
  }

  /** The last window reaches the end of the text. */
  lemma {:induction false} LastWindowEnds(text: string, cfg: Config, start: nat)
    requires start < |text| && cfg.chunkSize >= 1
    ensures var ws := Windows(text, cfg, start); ws != [] && ws[|ws| - 1].end == |text|
    decreases |text| - start
  {
    var w := WindowAt(text, cfg, start);
    var next := NextStart(text, cfg, w);
    assert Windows(text, cfg, start) == [w] + Windows(text, cfg, next);
    if w.end < |text| {
      WindowNonEmpty(text, cfg, start);
      LastWindowEnds(text, cfg, next);
    }
  }

  ghost predicate Ordered(ws: seq<Window>)
  {
    forall i, j | 0 <= i < j < |ws| :: ws[i].start < ws[j].start && ws[i].end <= ws[j].end
  }

  lemma {:induction false} WindowsOrderedUpTo(text: string, cfg: Config, n: nat)
    requires cfg.chunkSize >= 1 && n <= |AllWindows(text, cfg)|
    ensures Ordered(AllWindows(text, cfg)[..n])
  {
    var ws := AllWindows(text, cfg);
    if n >= 2 {
      WindowsOrderedUpTo(text, cfg, n - 1);
      ConsecutiveWindows(text, cfg, n - 1);
      assert ws[..n] == ws[..n - 1] + [ws[n - 1]];
      OrderedSnoc(ws[..n - 1], ws[n - 1]);
    }
  }

  lemma OrderedSnoc(ws: seq<Window>, w: Window)
    requires ws != [] && Ordered(ws)
    requires ws[|ws| - 1].start < w.start && ws[|ws| - 1].end <= w.end
    ensures Ordered(ws + [w])
  {
  }

  /** Over the whole text, starts strictly increase and ends never decrease. */
  lemma WindowsOrdered(text: string, cfg: Config)
    requires cfg.chunkSize >= 1
    ensures Ordered(AllWindows(text, cfg))
  {
    var ws := AllWindows(text, cfg);
    WindowsOrderedUpTo(text, cfg, |ws|);
    assert ws[..|ws|] == ws;
  }

  /** The number of windows is bounded for every configuration, zero sizes included. */
  lemma WindowCountBound(text: string, cfg: Config)
    requires |text| > 0
    ensures var step := Max(1, SaturatingSub(cfg.chunkSize, cfg.chunkOverlap + cfg.maxLookback));
            |AllWindows(text, cfg)| >= 1 && (|AllWindows(text, cfg)| - 1) * step < |text|
  {
    var ws := AllWindows(text, cfg);
    assert ws != [];
    StartsAdvance(text, cfg, |ws| - 1);
    WindowsChain(text, cfg, 0, |ws| - 1);
  }

  lemma {:induction false} StartsAdvance(text: string, cfg: Config, i: nat)
    requires i < |AllWindows(text, cfg)|
    ensures AllWindows(text, cfg)[i].start
            >= i * Max(1, SaturatingSub(cfg.chunkSize, cfg.chunkOverlap + cfg.maxLookback))
  {
    if i > 0 {
      StartsAdvance(text, cfg, i - 1);
      WindowsChain(text, cfg, 0, i - 1);
      Advance(text, cfg, AllWindows(text, cfg)[i - 1].start);
      OneMore(i, Max(1, SaturatingSub(cfg.chunkSize, cfg.chunkOverlap + cfg.maxLookback)));
    }
  }

  lemma OneMore(i: nat, step: nat)
    requires i > 0
    ensures i * step == (i - 1) * step + step
  {
  }

  // ---------------------------------------------------------------- nothing is lost

  function Slice(text: string, w: Window): string
  {
    if w.start <= w.end <= |text| then text[w.start..w.end] else []
  }

  /** What a window adds to the one before it: all but the prefix the two share. */
  function NewPart(text: string, cfg: Config, previous: Window, w: Window): string
  {
    var shared := Min(cfg.chunkOverlap, SaturatingSub(previous.end, previous.start + 1));
    var slice := Slice(text, w);
    slice[Min(shared, |slice|)..]
  }

  /** The windows put together again, each without the prefix it shares with the one before. */
  function Joined(text: string, cfg: Config, ws: seq<Window>): string
  {
    if ws == [] then []
    else if |ws| == 1 then Slice(text, ws[0])
    else Joined(text, cfg, ws[..|ws| - 1]) + NewPart(text, cfg, ws[|ws| - 2], ws[|ws| - 1])
  }

  lemma JoinedSnoc(text: string, cfg: Config, ws: seq<Window>, w: Window)
    requires ws != []
    ensures Joined(text, cfg, ws + [w]) == Joined(text, cfg, ws) + NewPart(text, cfg, ws[|ws| - 1], w)
  {
    var more := ws + [w];
    assert more[..|more| - 1] == ws && more[|more| - 1] == w && more[|more| - 2] == ws[|ws| - 1];
  }

  lemma JoinedStep(text: string, cfg: Config, front: seq<Window>, w: Window, a: nat, b: nat)
    requires front != [] && a <= b <= |text|
    requires Joined(text, cfg, front) == text[..a] && NewPart(text, cfg, front[|front| - 1], w) == text[a..b]
    ensures Joined(text, cfg, front + [w]) == text[..b]
  {
    JoinedSnoc(text, cfg, front, w);
    SliceJoin(text, a, b);
  }

  lemma {:induction false} JoinedPrefix(text: string, cfg: Config, n: nat)
    requires cfg.chunkSize >= 1 && 0 < n <= |AllWindows(text, cfg)|
    ensures AllWindows(text, cfg)[n - 1].end <= |text|
    ensures Joined(text, cfg, AllWindows(text, cfg)[..n]) == text[..AllWindows(text, cfg)[n - 1].end]
  {
    var ws := AllWindows(text, cfg);
    WindowsChain(text, cfg, 0, n - 1);
    if n == 1 {
      assert ws[..1] == [ws[0]];
    } else {
      JoinedPrefix(text, cfg, n - 1);
      NewPartIs(text, cfg, n - 1);
      PrefixSnoc(ws, n - 1);
      JoinedStep(text, cfg, ws[..n - 1], ws[n - 1], ws[n - 2].end, ws[n - 1].end);
    }
  }

  lemma SliceJoin(text: string, a: nat, b: nat)
    requires a <= b <= |text|
    ensures text[..a] + text[a..b] == text[..b]
  {
  }

  lemma ConsecutiveWindows(text: string, cfg: Config, i: nat)
    requires cfg.chunkSize >= 1 && 0 < i < |AllWindows(text, cfg)|
    ensures var v, w := AllWindows(text, cfg)[i - 1], AllWindows(text, cfg)[i];
            && v.start < w.start <= v.end <= w.end <= |text|
            && v.end - w.start == Min(cfg.chunkOverlap, v.end - v.start - 1)
  {
    var v := AllWindows(text, cfg)[i - 1];
    WindowsChain(text, cfg, 0, i - 1);
    WindowsChain(text, cfg, 0, i);
    EndsNeverMoveBack(text, cfg, v.start);
    SharedPrefix(text, cfg, v.start);
  }

  lemma NewPartIs(text: string, cfg: Config, i: nat)
    requires cfg.chunkSize >= 1 && 0 < i < |AllWindows(text, cfg)|
    ensures var v, w := AllWindows(text, cfg)[i - 1], AllWindows(text, cfg)[i];
            v.end <= w.end <= |text| && NewPart(text, cfg, v, w) == text[v.end..w.end]
  {
    var v, w := AllWindows(text, cfg)[i - 1], AllWindows(text, cfg)[i];
    ConsecutiveWindows(text, cfg, i);
    SliceCut(text, w.start, w.end, v.end - w.start, 0);
  }

  /** The raw windows rebuild the text exactly. */
  lemma WindowsRebuildText(text: string, cfg: Config)
    requires cfg.chunkSize >= 1
    ensures Joined(text, cfg, AllWindows(text, cfg)) == text
  {
    var ws := AllWindows(text, cfg);
    if |text| > 0 {
      LastWindowEnds(text, cfg, 0);
      assert ws[..|ws|] == ws;
      JoinedPrefix(text, cfg, |ws|);
    }
  }

  predicate Covers(w: Window, p: nat)
  {
    w.start <= p < w.end
  }

  /** Every position is in some window exactly when windows have a positive size. */
  lemma WindowsCoverIff(text: string, cfg: Config, p: nat)
    requires p < |text|
    ensures (exists i | 0 <= i < |AllWindows(text, cfg)| :: Covers(AllWindows(text, cfg)[i], p)) <==> cfg.chunkSize >= 1
  {
    var ws := AllWindows(text, cfg);
    if cfg.chunkSize >= 1 {
      LastWindowEnds(text, cfg, 0);
      WindowsChain(text, cfg, 0, 0);
      CoverFrom(text, cfg, p, 0);
    } else {
      forall i | 0 <= i < |ws| ensures !Covers(ws[i], p) { WindowsChain(text, cfg, 0, i); }
    }
  }

  lemma {:induction false} CoverFrom(text: string, cfg: Config, p: nat, i: nat)
    requires cfg.chunkSize >= 1 && p < |text| && i < |AllWindows(text, cfg)|
    requires AllWindows(text, cfg)[i].start <= p
    ensures exists j | i <= j < |AllWindows(text, cfg)| :: Covers(AllWindows(text, cfg)[j], p)
    decreases |AllWindows(text, cfg)| - i
  {
    var ws := AllWindows(text, cfg);
    if !Covers(ws[i], p) {
      WindowsChain(text, cfg, 0, i);
      assert ws[i].end <= p < |text|;
      if i + 1 == |ws| {
        LastWindowEnds(text, cfg, 0);
        assert false;
      }
      EndsNeverMoveBack(text, cfg, ws[i].start);
      CoverFrom(text, cfg, p, i + 1);
      var j :| i + 1 <= j < |ws| && Covers(ws[j], p);
    }
  }

  // ---------------------------------------------------------------- the emitted chunks

  predicate Holds(c: Chunk, p: nat)
  {
    c.startOffset <= p < c.endOffset
  }

  predicate FromWindow(text: string, cfg: Config, c: Chunk, w: Window)
  {
    w.start <= w.end <= |text| && Keeps(text, cfg, w) && c == ChunkOf(text, w, c.sequence)
  }

  /** Which window each chunk came from. */
  function Origins(text: string, cfg: Config, ws: seq<Window>): (os: seq<nat>)
    requires WindowsOk(text, ws)
  {
    if ws == [] then []
    else
      var front := Origins(text, cfg, ws[..|ws| - 1]);
      if Keeps(text, cfg, ws[|ws| - 1]) then front + [|ws| - 1] else front
  }

  predicate OriginsOk(text: string, cfg: Config, ws: seq<Window>, os: seq<nat>, cs: seq<Chunk>)
  {
    && |os| == |cs|
    && (forall k | 0 <= k < |os| :: os[k] < |ws| && cs[k].sequence == k && FromWindow(text, cfg, cs[k], ws[os[k]]))
    && (forall k, l | 0 <= k < l < |os| :: os[k] < os[l])
  }

  /** Chunks come from kept windows, in order, and are numbered from zero. */
  lemma {:induction false} EmitOrigins(text: string, cfg: Config, ws: seq<Window>)
    requires WindowsOk(text, ws)
    ensures OriginsOk(text, cfg, ws, Origins(text, cfg, ws), Emit(text, cfg, ws))
  {
    if ws != [] {
      var front, w := ws[..|ws| - 1], ws[|ws| - 1];
      EmitOrigins(text, cfg, front);
      OriginsExtend(text, cfg, front, w, Origins(text, cfg, front), Emit(text, cfg, front));
      assert ws == front + [w];
    }
  }

  lemma OriginsExtend(text: string, cfg: Config, ws: seq<Window>, w: Window, os: seq<nat>, cs: seq<Chunk>)
    requires OriginsOk(text, cfg, ws, os, cs) && w.start <= w.end <= |text|
    ensures OriginsOk(text, cfg, ws + [w], os, cs)
    ensures Keeps(text, cfg, w) ==> OriginsOk(text, cfg, ws + [w], os + [|ws|], cs + [ChunkOf(text, w, |cs|)])
  {
    forall k | 0 <= k < |os| ensures os[k] < |ws + [w]| && FromWindow(text, cfg, cs[k], (ws + [w])[os[k]]) {
      assert (ws + [w])[os[k]] == ws[os[k]];
    }
  }

  /** Every kept window gives a chunk. */
  lemma {:induction false} KeptIsEmitted(text: string, cfg: Config, ws: seq<Window>, i: nat)
    requires WindowsOk(text, ws) && i < |ws| && Keeps(text, cfg, ws[i])
    ensures i in Origins(text, cfg, ws)
  {
    if i < |ws| - 1 {
      KeptIsEmitted(text, cfg, ws[..|ws| - 1], i);
    }
  }

  /** A later window, trimmed, starts and ends no earlier. */
  lemma TrimKeepsOrder(text: string, v: Window, w: Window)
    requires v.start <= w.start <= v.end <= w.end <= |text|
    ensures TrimStart(text, v) <= TrimStart(text, w) && TrimEnd(text, v) <= TrimEnd(text, w)
  {
    TrimPositions(text, v);
    TrimPositions(text, w);
  }

  lemma TrimKeepsOrderFar(text: string, v: Window, w: Window)
    requires v.start <= v.end <= |text| && w.start <= w.end <= |text|
    requires v.start <= w.start && v.end <= w.end
    ensures TrimStart(text, v) <= TrimStart(text, w) && TrimEnd(text, v) <= TrimEnd(text, w)
  {
    if w.start <= v.end {
      TrimKeepsOrder(text, v, w);
    }
  }

  lemma AllWindowsOk(text: string, cfg: Config)
    ensures WindowsOk(text, AllWindows(text, cfg))
  {
    WindowsWithin(text, cfg, 0);
  }

  /**
   The emitted chunks: numbered 0, 1, 2, ..., each equal to the slice of the text between its
   offsets, with start and end offsets that never go down.
   */
  lemma ChunksOrdered(text: string, cfg: Config)
    requires cfg.chunkSize >= 1
    ensures WindowsOk(text, AllWindows(text, cfg))
    ensures var cs := Emit(text, cfg, AllWindows(text, cfg));
            && (forall k | 0 <= k < |cs| ::
                  && cs[k].sequence == k
                  && cs[k].startOffset <= cs[k].endOffset <= |text|
                  && cs[k].text == text[cs[k].startOffset..cs[k].endOffset])
            && (forall k, l | 0 <= k < l < |cs| ::
                  cs[k].startOffset <= cs[l].startOffset && cs[k].endOffset <= cs[l].endOffset)
  {
    var ws := AllWindows(text, cfg);
    AllWindowsOk(text, cfg);
    EmitOrigins(text, cfg, ws);
    WindowsOrdered(text, cfg);
    var cs, os := Emit(text, cfg, ws), Origins(text, cfg, ws);
    forall k | 0 <= k < |cs|
      ensures cs[k].sequence == k && cs[k].startOffset <= cs[k].endOffset <= |text|
      ensures cs[k].text == text[cs[k].startOffset..cs[k].endOffset]
    {
      assert FromWindow(text, cfg, cs[k], ws[os[k]]);
    }
    forall k, l | 0 <= k < l < |cs|
      ensures cs[k].startOffset <= cs[l].startOffset && cs[k].endOffset <= cs[l].endOffset
    {
      assert FromWindow(text, cfg, cs[k], ws[os[k]]) && FromWindow(text, cfg, cs[l], ws[os[l]]);
      assert os[k] < os[l];
      TrimKeepsOrderFar(text, ws[os[k]], ws[os[l]]);
    }
  }

  /** A window keeps each of its visible characters when it is trimmed. */
  lemma TrimKeepsVisible(text: string, w: Window, p: nat)
    requires w.start <= w.end <= |text| && p < |text| && !IsWhitespace(text[p])
    ensures Covers(w, p) <==> TrimStart(text, w) <= p < TrimEnd(text, w)
  {
    TrimPositions(text, w);
  }

  /** The size of a window after trimming. */
  function TrimmedSize(text: string, w: Window): nat
    requires w.start <= w.end <= |text|
  {
    TrimEnd(text, w) - TrimStart(text, w)
  }

  predicate KeepsVisible(text: string, cfg: Config, w: Window, p: nat)
  {
    w.start <= p < w.end <= |text| && (TrimmedSize(text, w) >= cfg.minChunkSize || w.end == |text|)
  }

  lemma KeepsVisibleIff(text: string, cfg: Config, w: Window, p: nat)
    requires w.start <= w.end <= |text| && p < |text| && !IsWhitespace(text[p])
    ensures KeepsVisible(text, cfg, w, p) <==> Covers(w, p) && Keeps(text, cfg, w)
  {
    TrimKeepsVisible(text, w, p);
  }

  /**
   What is dropped, exactly: a visible character is in the output if and only if some window that
   covers it is large enough after trimming, or is the last one.
   */
  lemma VisibleKeptIff(text: string, cfg: Config, p: nat)
    requires p < |text| && !IsWhitespace(text[p])
    ensures WindowsOk(text, AllWindows(text, cfg))
    ensures (exists c | c in Emit(text, cfg, AllWindows(text, cfg)) :: Holds(c, p))
            <==> (exists i | 0 <= i < |AllWindows(text, cfg)| :: KeepsVisible(text, cfg, AllWindows(text, cfg)[i], p))
  {
    var ws := AllWindows(text, cfg);
    AllWindowsOk(text, cfg);
    EmitOrigins(text, cfg, ws);
    var cs, os := Emit(text, cfg, ws), Origins(text, cfg, ws);
    if c :| c in cs && Holds(c, p) {
      var k :| 0 <= k < |cs| && cs[k] == c;
      assert FromWindow(text, cfg, c, ws[os[k]]);
      TrimKeepsVisible(text, ws[os[k]], p);
      KeepsVisibleIff(text, cfg, ws[os[k]], p);
    }
    if i :| 0 <= i < |ws| && KeepsVisible(text, cfg, ws[i], p) {
      KeepsVisibleIff(text, cfg, ws[i], p);
      EmittedHolds(text, cfg, ws, i, p);
    }
  }

  lemma EmittedHolds(text: string, cfg: Config, ws: seq<Window>, i: nat, p: nat)
    requires WindowsOk(text, ws) && i < |ws| && Keeps(text, cfg, ws[i]) && Covers(ws[i], p)
    requires !IsWhitespace(text[p])
    ensures exists c | c in Emit(text, cfg, ws) :: Holds(c, p)
  {
    EmitOrigins(text, cfg, ws);
    KeptIsEmitted(text, cfg, ws, i);
    var cs, os := Emit(text, cfg, ws), Origins(text, cfg, ws);
    var k :| 0 <= k < |os| && os[k] == i;
    assert FromWindow(text, cfg, cs[k], ws[i]);
    TrimKeepsVisible(text, ws[i], p);
    assert cs[k] in cs;
  }

  /** With a minimum size of at most one, no visible character is lost. */
  lemma NothingVisibleLost(text: string, cfg: Config, p: nat)
    requires cfg.chunkSize >= 1 && cfg.minChunkSize <= 1
    requires p < |text| && !IsWhitespace(text[p])
    ensures WindowsOk(text, AllWindows(text, cfg))
    ensures exists c | c in Emit(text, cfg, AllWindows(text, cfg)) :: Holds(c, p)
  {
    var ws := AllWindows(text, cfg);
    AllWindowsOk(text, cfg);
    WindowsCoverIff(text, cfg, p);
    var i :| 0 <= i < |ws| && Covers(ws[i], p);
    TrimKeepsVisible(text, ws[i], p);
    EmittedHolds(text, cfg, ws, i, p);
  }

  // ---------------------------------------------------------------- the output, written out

  /** The ten boundary characters. */
  lemma BoundaryCharacters(c: char)
    ensures IsBoundary(c) <==> c in ".!?\n\U{2026}\U{3002}\U{FF01}\U{FF1A}\U{FF1B}\U{FF1F}"
  {
  }

  /** The twenty-five whitespace characters. */
  lemma WhitespaceCharacters(c: char)
    ensures IsWhitespace(c) <==>
            || c in "\t\n\U{0B}\U{0C}\r \U{85}\U{A0}\U{1680}\U{2028}\U{2029}\U{202F}\U{205F}\U{3000}"
            || '\U{2000}' <= c <= '\U{200A}'
  {
  }

  /** What `str::trim` leaves: all from the first visible character to the last. */
  lemma TrimIs(s: string)
    ensures exists a, b | 0 <= a <= b <= |s| ::
              && Trim(s) == s[a..b]
              && (forall p | 0 <= p < a || b <= p < |s| :: IsWhitespace(s[p]))
              && (a < b ==> !IsWhitespace(s[a]) && !IsWhitespace(s[b - 1]))
              && (a == b ==> Trim(s) == [])
  {
    var w := Window(0, |s|, true);
    TrimPositions(s, w);
    assert s[0..|s|] == s;
    var lead := LeadCount(s);
    var tail := TailCount(s[lead..]);
    SliceCut(s, 0, |s|, lead, tail);
    assert Trim(s) == s[TrimStart(s, w)..TrimEnd(s, w)];
  }

  /** The next window starts the overlap before this one's end, but always further on. */
  predicate Follows(cfg: Config, w: Window, v: Window)
  {
    v.start == if w.end - cfg.chunkOverlap > w.start then w.end - cfg.chunkOverlap else w.start + 1
  }

  lemma {:induction false} WindowsFollow(text: string, cfg: Config, start: nat, i: nat)
    requires i < |Windows(text, cfg, start)|
    ensures var ws := Windows(text, cfg, start);
            && ws[0].start == start
            && ws[i].start < |text| && ws[i] == WindowAt(text, cfg, ws[i].start)
            && (i + 1 < |ws| ==> ws[i].end < |text| && Follows(cfg, ws[i], ws[i + 1]))
            && (i + 1 == |ws| ==> ws[i].end == |text| || NextStart(text, cfg, ws[i]) >= |text|)
    decreases i
  {
    var w := WindowAt(text, cfg, start);
    var next := NextStart(text, cfg, w);
    assert Windows(text, cfg, start) == [w] + Windows(text, cfg, next);
    if i > 0 {
      WindowsFollow(text, cfg, next, i - 1);
    } else if next < |text| {
      assert Windows(text, cfg, next)[0].start == next;
    }
  }

  /** Whether a window from `start` ends at a natural place: the end of the text, or a boundary within look-back. */
  predicate NaturalFrom(text: string, cfg: Config, start: nat)
  {
    var reach := start + cfg.chunkSize;
    || reach >= |text|
    || exists p | start <= p < reach && reach - cfg.maxLookback <= p :: IsBoundary(text[p])
  }

  lemma WindowNaturalIff(text: string, cfg: Config, start: nat)
    requires start < |text|
    ensures WindowAt(text, cfg, start).natural <==> NaturalFrom(text, cfg, start)
  {
    WindowIs(text, cfg, start);
    var reach := start + cfg.chunkSize;
    if reach < |text| {
      var limit := Max(SaturatingSub(reach, cfg.maxLookback), start);
      if p :| start <= p < reach && reach - cfg.maxLookback <= p && IsBoundary(text[p]) {
        assert limit <= p;
        assert BoundaryIn(text, limit, reach);
      }
    }
  }

  /** A chunk made from the text between start and end: what it says, and that it is worth keeping. */
  predicate Describes(text: string, cfg: Config, c: Chunk, start: nat, end: nat)
  {
    && start <= c.startOffset <= c.endOffset <= end <= |text| && start < |text|
    && c.text == text[c.startOffset..c.endOffset]
    && (forall p | start <= p < c.startOffset :: IsWhitespace(text[p]))
    && (forall p | c.endOffset <= p < end :: IsWhitespace(text[p]))
    && (c.text != [] ==> !IsWhitespace(text[c.startOffset]) && !IsWhitespace(text[c.endOffset - 1]))
    && (c.isNatural <==> NaturalFrom(text, cfg, start))
    && (c.endOffset - c.startOffset >= cfg.minChunkSize || (end == |text| && c.text != []))
  }

  lemma WindowDescribed(text: string, cfg: Config, w: Window, c: Chunk)
    requires w.start < |text| && w == WindowAt(text, cfg, w.start)
    requires w.end <= |text| && FromWindow(text, cfg, c, w)
    ensures Describes(text, cfg, c, w.start, w.end)
  {
    TrimPositions(text, w);
    WindowNaturalIff(text, cfg, w.start);
  }

  /** Every chunk describes the window it came from, natural flag included. */
  lemma ChunksDescribe(text: string, cfg: Config)
    ensures WindowsOk(text, AllWindows(text, cfg))
    ensures var ws := AllWindows(text, cfg);
            var cs, os := Emit(text, cfg, ws), Origins(text, cfg, ws);
            && |os| == |cs|
            && forall k | 0 <= k < |cs| :: os[k] < |ws| && Describes(text, cfg, cs[k], ws[os[k]].start, ws[os[k]].end)
  {
    var ws := AllWindows(text, cfg);
    AllWindowsOk(text, cfg);
    EmitOrigins(text, cfg, ws);
    var cs, os := Emit(text, cfg, ws), Origins(text, cfg, ws);
    forall k | 0 <= k < |cs| ensures os[k] < |ws| && Describes(text, cfg, cs[k], ws[os[k]].start, ws[os[k]].end) {
      WindowsFollow(text, cfg, 0, os[k]);
      WindowDescribed(text, cfg, ws[os[k]], cs[k]);
    }
  }

  /** A window gives a chunk exactly when something of the minimum size, or at the end anything, is left of it. */
  lemma WindowEmittedIff(text: string, cfg: Config, i: nat)
    requires i < |AllWindows(text, cfg)|
    ensures WindowsOk(text, AllWindows(text, cfg))
    ensures var w := AllWindows(text, cfg)[i];
            i in Origins(text, cfg, AllWindows(text, cfg)) <==>
            TrimmedSize(text, w) >= cfg.minChunkSize || (w.end == |text| && TrimmedSize(text, w) > 0)
  {
    var ws := AllWindows(text, cfg);
    AllWindowsOk(text, cfg);
    EmitOrigins(text, cfg, ws);
    var cs, os := Emit(text, cfg, ws), Origins(text, cfg, ws);
    if i in os {
      var k :| 0 <= k < |os| && os[k] == i;
      assert FromWindow(text, cfg, cs[k], ws[os[k]]);
    }
    if Keeps(text, cfg, ws[i]) {
      KeptIsEmitted(text, cfg, ws, i);
    }
  }

  // ---------------------------------------------------------------- the statistics

  function NaturalOnes(cs: seq<Chunk>): set<nat>
  {
    set k | 0 <= k < |cs| && cs[k].isNatural
  }

  /** The natural splits counted are the chunks with the flag. */
  lemma {:induction false} NaturalCountIs(cs: seq<Chunk>)
    ensures NaturalCount(cs) == |NaturalOnes(cs)|
  {
    if cs == [] {
      assert NaturalOnes(cs) == {};
    } else {
      var n := |cs| - 1;
      NaturalCountIs(cs[..n]);
      assert NaturalOnes(cs) == NaturalOnes(cs[..n]) + if cs[n].isNatural then {n} else {};
      assert n !in NaturalOnes(cs[..n]);
    }
  }

  /** The characters covered by the chunks, from their offsets. */
  function Spans(cs: seq<Chunk>): int
  {
    if cs == [] then 0 else Spans(cs[..|cs| - 1]) + cs[|cs| - 1].endOffset - cs[|cs| - 1].startOffset
  }

  predicate Sized(cs: seq<Chunk>)
  {
    forall k | 0 <= k < |cs| :: cs[k].endOffset - cs[k].startOffset == |cs[k].text|
  }

  lemma {:induction false} TotalIsSpans(cs: seq<Chunk>)
    requires Sized(cs)
    ensures TotalSize(cs) == Spans(cs)
  {
    if cs != [] {
      TotalIsSpans(cs[..|cs| - 1]);
    }
  }

  lemma SpansAreSizes(text: string, cfg: Config)
    ensures WindowsOk(text, AllWindows(text, cfg))
    ensures Sized(Emit(text, cfg, AllWindows(text, cfg)))
  {
    var ws := AllWindows(text, cfg);
    ChunksDescribe(text, cfg);
    var cs, os := Emit(text, cfg, ws), Origins(text, cfg, ws);
    forall k | 0 <= k < |cs| ensures cs[k].endOffset - cs[k].startOffset == |cs[k].text| {
      assert Describes(text, cfg, cs[k], ws[os[k]].start, ws[os[k]].end);
    }
  }

  /** The number r is the average of n sizes that add up to total. */
  predicate AverageOf(r: real, n: nat, total: int)
  {
    r * n as real == total as real
  }

  lemma RatioIsAverage(x: nat, n: nat)
    requires n > 0
    ensures AverageOf(Ratio(x, n), n, x)
  {
  }

  lemma MeanOfSized(cs: seq<Chunk>)
    requires Sized(cs) && cs != []
    ensures AverageOf(MeanSize(cs), |cs|, Spans(cs))
  {
    TotalIsSpans(cs);
    RatioIsAverage(TotalSize(cs), |cs|);
  }

  /** The average size is that of what the offsets span; without chunks it is zero. */
  lemma MeanSizeIs(text: string, cfg: Config)
    ensures WindowsOk(text, AllWindows(text, cfg))
    ensures var cs := Emit(text, cfg, AllWindows(text, cfg));
            (cs == [] ==> MeanSize(cs) == 0.0) && (cs != [] ==> AverageOf(MeanSize(cs), |cs|, Spans(cs)))
  {
    SpansAreSizes(text, cfg);
    var cs := Emit(text, cfg, AllWindows(text, cfg));
    if cs != [] {
      MeanOfSized(cs);
    }
  }

  lemma NothingToTrim(text: string, w: Window)
    requires w.start == 0 && w.end == |text| > 0 && !IsWhitespace(text[0]) && !IsWhitespace(text[|text| - 1])
    ensures TrimStart(text, w) == 0 && TrimEnd(text, w) == |text|
    ensures ChunkOf(text, w, 0) == Chunk(text, 0, |text|, 0, w.natural)
  {
    TrimPositions(text, w);
    assert text[0..|text|] == text;
  }

  lemma OneWindow(text: string, cfg: Config)
    requires 0 < |text| <= cfg.chunkSize
    ensures AllWindows(text, cfg) == [Window(0, |text|, true)]
  {
    assert Windows(text, cfg, |text|) == [];
  }

  /** A text that fits into one window, with nothing to trim, is one natural chunk of itself. */
  lemma ShortTextIsOneChunk(text: string, cfg: Config)
    requires 0 < |text| <= cfg.chunkSize && !IsWhitespace(text[0]) && !IsWhitespace(text[|text| - 1])
    ensures WindowsOk(text, AllWindows(text, cfg))
    ensures Emit(text, cfg, AllWindows(text, cfg)) == [Chunk(text, 0, |text|, 0, true)]
  {
    var w := Window(0, |text|, true);
    OneWindow(text, cfg);
    NothingToTrim(text, w);
    EmitSnoc(text, cfg, [], w);
    assert [] + [w] == [w];
  }
}

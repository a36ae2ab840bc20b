/** `chunk_text`: the fixed-width, overlapping character-window splitter of the
    document pipeline. Each window is stripped and empty windows are dropped. */
module Chunker {
  import opened Strings

  /** The keyword defaults of `chunk_text`, which is how ingestion calls it. */
  const DefaultMaxChars: nat := 500
  const DefaultOverlap: int := 100

  /** A half-open range `[lo, hi)` of character positions in the text. */
  datatype Window = Window(lo: nat, hi: nat)

  function Min(a: nat, b: nat): (m: nat) { if a <= b then a else b }

  function Max(a: int, b: int): (m: int) { if a >= b then a else b }

  /** `end = min(start + max_chars, n)`. */
  function WindowEnd(start: nat, n: nat, maxChars: nat): (end: nat) {
    Min(start + maxChars, n)
  }

  /** `start = max(0, end - overlap)`, the start of the next window. */
  function NextStart(end: nat, overlap: int): (start: nat) {
    Max(0, end - overlap)
  }

  /** The inputs on which the loop of `chunk_text` ends: exactly when each window
      that stops short of the end moves the start rightwards, or the first window
      already reaches the end. */
  predicate Terminates(n: nat, maxChars: nat, overlap: int) {
    overlap < maxChars || n <= maxChars
  }

  /** Every window lies inside a text of length `n`. */
  predicate InText(ws: seq<Window>, n: nat) {
    forall i :: 0 <= i < |ws| ==> ws[i].lo <= ws[i].hi <= n
  }

  /** Every window is at most `maxChars` wide. */
  predicate AtMostWide(ws: seq<Window>, maxChars: nat) {
    forall i :: 0 <= i < |ws| ==> ws[i].hi - ws[i].lo <= maxChars
  }

  /** The windows the loop visits once `start` holds the given value. */
  function WindowsFrom(n: nat, maxChars: nat, overlap: int, start: nat): (ws: seq<Window>)
    requires Terminates(n, maxChars, overlap)
    ensures InText(ws, n) && AtMostWide(ws, maxChars)
    ensures forall i :: 0 <= i < |ws| ==> start <= ws[i].lo
    decreases n - start
  {
    if start >= n then []
    else
      var end := WindowEnd(start, n, maxChars);
      if end == n then [Window(start, end)]
      else [Window(start, end)] + WindowsFrom(n, maxChars, overlap, NextStart(end, overlap))
  }

  /** All windows the loop visits over a text of length `n`. */
  function Windows(n: nat, maxChars: nat, overlap: int): (ws: seq<Window>)
    requires Terminates(n, maxChars, overlap)
  {
    WindowsFrom(n, maxChars, overlap, 0)
  }

  /** The stripped contents of the windows, empty ones dropped, in window order. */
  function ChunksOf(text: string, ws: seq<Window>): (r: seq<string>)
    requires InText(ws, |text|)
    ensures |r| <= |ws|
    ensures forall k :: 0 <= k < |r| ==> r[k] != [] && IsStripped(r[k])
  {
    if ws == [] then []
    else
      var c := Strip(text[ws[0].lo..ws[0].hi]);
      StripFacts(text[ws[0].lo..ws[0].hi]);
      var rest := ChunksOf(text, ws[1..]);
      if c == [] then rest else [c] + rest
  }

  /** One turn of the loop: the first window's stripped text, if non-empty, followed by
      the chunks of the remaining windows. */
  lemma ChunksOfStep(text: string, ws: seq<Window>)
    requires InText(ws, |text|) && ws != []
    ensures Strip(text[ws[0].lo..ws[0].hi]) == [] ==> ChunksOf(text, ws) == ChunksOf(text, ws[1..])
    ensures Strip(text[ws[0].lo..ws[0].hi]) != [] ==>
      ChunksOf(text, ws) == [Strip(text[ws[0].lo..ws[0].hi])] + ChunksOf(text, ws[1..])
  {
  }

  /** The windows whose stripped text is non-empty, in window order. */
  function KeptWindows(text: string, ws: seq<Window>): (kw: seq<Window>)
    requires InText(ws, |text|)
    ensures forall k :: 0 <= k < |kw| ==> kw[k] in ws
  {
    if ws == [] then []
    else
      var rest := KeptWindows(text, ws[1..]);
      if Strip(text[ws[0].lo..ws[0].hi]) == [] then rest else [ws[0]] + rest
  }

  /** Chunk `k` is the stripped text of window `k`. */
  predicate StripsTo(text: string, ws: seq<Window>, r: seq<string>) {
    && |ws| == |r|
    && forall k :: 0 <= k < |r| ==> ws[k].lo <= ws[k].hi <= |text| && r[k] == Strip(text[ws[k].lo..ws[k].hi])
  }

  lemma StripsToCons(text: string, w: Window, ws: seq<Window>, c: string, r: seq<string>)
    requires w.lo <= w.hi <= |text| && c == Strip(text[w.lo..w.hi])
    requires StripsTo(text, ws, r)
    ensures StripsTo(text, [w] + ws, [c] + r)
  {
    var ws', r' := [w] + ws, [c] + r;
    forall k | 1 <= k < |r'|
      ensures ws'[k].lo <= ws'[k].hi <= |text| && r'[k] == Strip(text[ws'[k].lo..ws'[k].hi])
    {
      var j := k - 1;
      assert ws'[k] == ws[j] && r'[k] == r[j];
      assert ws[j].lo <= ws[j].hi <= |text| && r[j] == Strip(text[ws[j].lo..ws[j].hi]);
    }
  }

  lemma {:induction false} ChunksOfKeptWindows(text: string, ws: seq<Window>)
    requires InText(ws, |text|)
    ensures StripsTo(text, KeptWindows(text, ws), ChunksOf(text, ws))
  {
    if ws != [] {
      ChunksOfKeptWindows(text, ws[1..]);
      var c := Strip(text[ws[0].lo..ws[0].hi]);
      if c != [] {
        StripsToCons(text, ws[0], KeptWindows(text, ws[1..]), c, ChunksOf(text, ws[1..]));
      }
    }
  }

  /** The result of `chunk_text(text, max_chars, overlap)`. */
  function Chunks(text: string, maxChars: nat, overlap: int): (r: seq<string>)
    requires Terminates(|text|, maxChars, overlap)
    ensures forall k :: 0 <= k < |r| ==> r[k] != [] && IsStripped(r[k])
  {
    ChunksOf(text, Windows(|text|, maxChars, overlap))
  }

  /** Window starts strictly increase. */
  predicate Rightward(ws: seq<Window>) {
    forall a, b :: 0 <= a < b < |ws| ==> ws[a].lo < ws[b].lo
  }

  lemma MulStrict(a: nat, b: nat, step: int)
    requires a < b && 0 < step
    ensures a * step < b * step
  {
    assert b * step - a * step == (b - a) * step;
  }

  /** Each window of the loop starts strictly right of the one before: a second window
      exists only when the first stops short of the end, and then the step is positive. */
  lemma WindowsRightward(n: nat, maxChars: nat, overlap: int)
    requires Terminates(n, maxChars, overlap)
    ensures Rightward(Windows(n, maxChars, overlap))
  {
    var ws := Windows(n, maxChars, overlap);
    WindowsRegular(n, maxChars, overlap);
    if |ws| >= 2 {
      var step := maxChars - overlap;
      assert ws[0].hi == ws[0].lo + maxChars < n;
      forall a, b | 0 <= a < b < |ws|
        ensures ws[a].lo < ws[b].lo
      {
        assert ws[a].lo == a * step && ws[b].lo == b * step;
        MulStrict(a, b, step);
      }
    }
  }

  lemma RightwardTail(ws: seq<Window>)
    requires ws != [] && Rightward(ws)
    ensures Rightward(ws[1..])
    ensures forall k :: 0 <= k < |ws[1..]| ==> ws[0].lo < ws[1..][k].lo
  {
    forall a, b | 0 <= a < b < |ws[1..]|
      ensures ws[1..][a].lo < ws[1..][b].lo
    {
      assert ws[1..][a] == ws[a + 1] && ws[1..][b] == ws[b + 1];
    }
  }

  lemma RightwardCons(x: Window, ws: seq<Window>)
    requires Rightward(ws) && forall k :: 0 <= k < |ws| ==> x.lo < ws[k].lo
    ensures Rightward([x] + ws)
  {
    var xs := [x] + ws;
    forall a, b | 0 <= a < b < |xs|
      ensures xs[a].lo < xs[b].lo
    {
      assert xs[b] == ws[b - 1];
      if a > 0 {
        assert xs[a] == ws[a - 1];
      }
    }
  }

  /** Dropping windows keeps the remaining ones in order. */
  lemma {:induction false} KeptWindowsRightward(text: string, ws: seq<Window>)
    requires InText(ws, |text|) && Rightward(ws)
    ensures Rightward(KeptWindows(text, ws))
  {
    if ws != [] {
      var tail := ws[1..];
      RightwardTail(ws);
      KeptWindowsRightward(text, tail);
      var rest := KeptWindows(text, tail);
      if Strip(text[ws[0].lo..ws[0].hi]) != [] {
        forall k | 0 <= k < |rest|
          ensures ws[0].lo < rest[k].lo
        {
          var j :| 0 <= j < |tail| && tail[j] == rest[k];
        }
        RightwardCons(ws[0], rest);
      }
    }
  }

  /** Every chunk is `text[s:e].strip()` for a window `[s, e)` of the loop, so it is at
      most `maxChars` long; the windows of successive chunks start ever further right,
      so chunk order is window order. */
  lemma ChunksComeFromWindows(text: string, maxChars: nat, overlap: int)
    requires Terminates(|text|, maxChars, overlap)
    ensures var r, ws := Chunks(text, maxChars, overlap), Windows(|text|, maxChars, overlap);
      var kw := KeptWindows(text, ws);
      && |kw| == |r|
      && forall k :: 0 <= k < |r| ==>
           && kw[k] in ws && kw[k].hi - kw[k].lo <= maxChars
           && r[k] == Strip(text[kw[k].lo..kw[k].hi]) && |r[k]| <= maxChars
    ensures Rightward(KeptWindows(text, Windows(|text|, maxChars, overlap)))
  {
    ChunksOfKeptWindows(text, Windows(|text|, maxChars, overlap));
    WindowsRightward(|text|, maxChars, overlap);
    KeptWindowsRightward(text, Windows(|text|, maxChars, overlap));
  }

  /** `chunk_text` as written: a window loop that strips, keeps non-empty windows,
      and stops once a window reaches the end of the text. */
  method ChunkText(text: string, maxChars: nat, overlap: int) returns (chunks: seq<string>)
    requires Terminates(|text|, maxChars, overlap)
    ensures chunks == Chunks(text, maxChars, overlap)
  {
    ghost var all := Chunks(text, maxChars, overlap);
    chunks := [];
    var start, n := 0, |text|;
    while start < n
      invariant chunks + ChunksOf(text, WindowsFrom(n, maxChars, overlap, start)) == all
      decreases n - start
    {
      var end := WindowEnd(start, n, maxChars);
      var chunk := Strip(text[start..end]);
      ghost var ws := WindowsFrom(n, maxChars, overlap, start);
      ChunksOfStep(text, ws);
      if chunk != [] {
        chunks := chunks + [chunk];
      }
      assert chunks + ChunksOf(text, ws[1..]) == all;
      if end == n {
        break;
      }
      start := NextStart(end, overlap);
    }
  }

  /** Outside `Terminates`, that is with `overlap >= max_chars` and a text longer than
      one window, the first window does not reach the end and the next start is again
      0: the loop revisits its first window forever. */
  lemma LoopStallsWhenOverlapTooLarge(n: nat, maxChars: nat, overlap: int)
    requires !Terminates(n, maxChars, overlap)
    ensures maxChars <= overlap && maxChars < n
    ensures WindowEnd(0, n, maxChars) < n && NextStart(WindowEnd(0, n, maxChars), overlap) == 0
  {
  }

  /** Empty or whitespace-only windows contribute nothing. */
  lemma {:induction false} ChunksOfAllSpace(text: string, ws: seq<Window>)
    requires InText(ws, |text|)
    requires AllSpace(text)
    ensures ChunksOf(text, ws) == []
  {
    if ws != [] {
      var s := text[ws[0].lo..ws[0].hi];
      assert forall k :: 0 <= k < |s| ==> s[k] == text[ws[0].lo + k];
      StripFacts(s);
      ChunksOfAllSpace(text, ws[1..]);
    }
  }

  /** Empty or whitespace-only text yields no chunks. */
  lemma AllSpaceYieldsNoChunks(text: string, maxChars: nat, overlap: int)
    requires Terminates(|text|, maxChars, overlap)
    requires AllSpace(text)
    ensures Chunks(text, maxChars, overlap) == []
  {
    ChunksOfAllSpace(text, Windows(|text|, maxChars, overlap));
  }

  /** A text that fits in one window yields nothing or exactly its stripped self. */
  lemma ShortTextIsOneChunk(text: string, maxChars: nat, overlap: int)
    requires |text| <= maxChars
    ensures Terminates(|text|, maxChars, overlap)
    ensures Chunks(text, maxChars, overlap) == (if AllSpace(text) then [] else [Strip(text)])
  {
    StripFacts(text);
    if |text| > 0 {
      assert Windows(|text|, maxChars, overlap) == [Window(0, |text|)];
      assert text[0..|text|] == text;
    }
  }

  /** Window `i` starts at `start + i * step` and is as wide as the text allows. */
  predicate Stepped(ws: seq<Window>, start: int, step: int, maxChars: nat, n: nat) {
    forall i :: 0 <= i < |ws| ==>
      ws[i].lo == start + i * step && ws[i].hi == Min(ws[i].lo + maxChars, n)
  }

  /** Every window but the last is full width and stops short of the end. */
  predicate FullUntilLast(ws: seq<Window>, maxChars: nat, n: nat) {
    forall i :: 0 <= i < |ws| - 1 ==> ws[i].hi == ws[i].lo + maxChars < n
  }

  lemma SteppedCons(x: Window, ws: seq<Window>, start: int, step: int, maxChars: nat, n: nat)
    requires x.lo == start && x.hi == Min(start + maxChars, n)
    requires Stepped(ws, start + step, step, maxChars, n)
    ensures Stepped([x] + ws, start, step, maxChars, n)
  {
    forall i | 1 <= i < |ws| + 1
      ensures ([x] + ws)[i].lo == start + i * step
    {
      assert ([x] + ws)[i] == ws[i - 1];
      assert (i - 1) * step + step == i * step;
    }
  }

  lemma FullUntilLastCons(x: Window, ws: seq<Window>, maxChars: nat, n: nat)
    requires ws != [] ==> x.hi == x.lo + maxChars < n
    requires FullUntilLast(ws, maxChars, n)
    ensures FullUntilLast([x] + ws, maxChars, n)
  {
    forall i | 1 <= i < |ws|
      ensures ([x] + ws)[i].hi == ([x] + ws)[i].lo + maxChars < n
    {
      assert ([x] + ws)[i] == ws[i - 1];
    }
  }

  /** From a given start, window starts step by `maxChars - overlap`. */
  lemma {:induction false} WindowsFromStepped(n: nat, maxChars: nat, overlap: int, start: nat)
    requires Terminates(n, maxChars, overlap)
    ensures Stepped(WindowsFrom(n, maxChars, overlap, start), start, maxChars - overlap, maxChars, n)
    decreases n - start
  {
    if start < n {
      var end := WindowEnd(start, n, maxChars);
      if end < n {
        var next := NextStart(end, overlap);
        WindowsFromStepped(n, maxChars, overlap, next);
        SteppedCons(Window(start, end), WindowsFrom(n, maxChars, overlap, next),
                    start, maxChars - overlap, maxChars, n);
      }
    }
  }

  /** Every window but the last is full width and stops short of the end. */
  lemma {:induction false} WindowsFromFull(n: nat, maxChars: nat, overlap: int, start: nat)
    requires Terminates(n, maxChars, overlap)
    ensures FullUntilLast(WindowsFrom(n, maxChars, overlap, start), maxChars, n)
    decreases n - start
  {
    if start < n {
      var end := WindowEnd(start, n, maxChars);
      if end < n {
        var next := NextStart(end, overlap);
        WindowsFromFull(n, maxChars, overlap, next);
        FullUntilLastCons(Window(start, end), WindowsFrom(n, maxChars, overlap, next), maxChars, n);
      }
    }
  }

  /** With a non-negative overlap the next start never passes the end of the text, so
      the last window reaches it. */
  lemma {:induction false} WindowsFromReachEnd(n: nat, maxChars: nat, overlap: int, start: nat)
    requires Terminates(n, maxChars, overlap) && 0 <= overlap && start < n
    ensures var ws := WindowsFrom(n, maxChars, overlap, start); 0 < |ws| && ws[|ws| - 1].hi == n
    decreases n - start
  {
    var end := WindowEnd(start, n, maxChars);
    if end < n {
      WindowsFromReachEnd(n, maxChars, overlap, NextStart(end, overlap));
    }
  }

  /** The window structure of `chunk_text`: window `i` starts at `i * d` with
      `d = maxChars - overlap`, consecutive windows share exactly `overlap`
      characters, only the last window reaches the end of the text, and with a
      non-negative overlap some window does. */
  lemma WindowsRegular(n: nat, maxChars: nat, overlap: int)
    requires Terminates(n, maxChars, overlap)
    ensures Stepped(Windows(n, maxChars, overlap), 0, maxChars - overlap, maxChars, n)
    ensures FullUntilLast(Windows(n, maxChars, overlap), maxChars, n)
    ensures var ws := Windows(n, maxChars, overlap);
      forall i :: 0 <= i < |ws| - 1 ==>
        ws[i + 1].lo == ws[i].lo + (maxChars - overlap) && ws[i].hi - ws[i + 1].lo == overlap
    ensures var ws := Windows(n, maxChars, overlap);
      0 <= overlap && 0 < n ==> 0 < |ws| && ws[|ws| - 1].hi == n
    ensures n == 0 <==> Windows(n, maxChars, overlap) == []
  {
    var ws := Windows(n, maxChars, overlap);
    WindowsFromStepped(n, maxChars, overlap, 0);
    WindowsFromFull(n, maxChars, overlap, 0);
    if 0 <= overlap && 0 < n {
      WindowsFromReachEnd(n, maxChars, overlap, 0);
    }
    SteppedAdjacent(ws, maxChars, overlap, n);
  }

  /** In a stepped sequence of full windows consecutive starts differ by exactly the
      step and consecutive windows share exactly `overlap` characters. */
  lemma SteppedAdjacent(ws: seq<Window>, maxChars: nat, overlap: int, n: nat)
    requires Stepped(ws, 0, maxChars - overlap, maxChars, n)
    requires FullUntilLast(ws, maxChars, n)
    ensures forall i :: 0 <= i < |ws| - 1 ==>
      ws[i + 1].lo == ws[i].lo + (maxChars - overlap) && ws[i].hi - ws[i + 1].lo == overlap
  {
    var step := maxChars - overlap;
    forall i | 0 <= i < |ws| - 1
      ensures ws[i + 1].lo == ws[i].lo + step
    {
      assert i * step + step == (i + 1) * step;
    }
  }

  /** Where in the text the stripped content of window `w` sits. */
  function StripSpan(text: string, w: Window): (span: Window)
    requires w.lo <= w.hi <= |text|
  {
    var s := text[w.lo..w.hi];
    Window(w.lo + TrimStart(s), w.lo + TrimEnd(s))
  }

  /** A non-empty stripped window is the text between its first and last
      non-whitespace characters, with only whitespace on either side inside `w`. */
  lemma StripSpanFacts(text: string, w: Window)
    requires w.lo <= w.hi <= |text|
    requires Strip(text[w.lo..w.hi]) != []
    ensures var sp := StripSpan(text, w);
      && w.lo <= sp.lo < sp.hi <= w.hi
      && Strip(text[w.lo..w.hi]) == text[sp.lo..sp.hi]
      && !IsSpace(text[sp.lo]) && !IsSpace(text[sp.hi - 1])
      && (forall p :: w.lo <= p < sp.lo ==> IsSpace(text[p]))
      && (forall p :: sp.hi <= p < w.hi ==> IsSpace(text[p]))
  {
    StripSpanEnds(text, w);
    StripSpanText(text, w);
    StripSpanMargins(text, w);
  }

  lemma StripSpanEnds(text: string, w: Window)
    requires w.lo <= w.hi <= |text|
    requires Strip(text[w.lo..w.hi]) != []
    ensures var sp := StripSpan(text, w);
      && w.lo <= sp.lo < sp.hi <= w.hi
      && !IsSpace(text[sp.lo]) && !IsSpace(text[sp.hi - 1])
  {
    SliceEnds(text, w.lo, w.hi);
  }

  lemma StripSpanText(text: string, w: Window)
    requires w.lo <= w.hi <= |text|
    requires Strip(text[w.lo..w.hi]) != []
    ensures var sp := StripSpan(text, w);
      sp.lo <= sp.hi <= |text| && Strip(text[w.lo..w.hi]) == text[sp.lo..sp.hi]
  {
    SliceStrip(text, w.lo, w.hi);
  }

  lemma StripSpanMargins(text: string, w: Window)
    requires w.lo <= w.hi <= |text|
    ensures var sp := StripSpan(text, w);
      && (forall p :: w.lo <= p < sp.lo ==> IsSpace(text[p]))
      && (forall p :: sp.hi <= p < w.hi ==> IsSpace(text[p]))
  {
    var s := text[w.lo..w.hi];
    TrimStartFacts(s);
    TrimEndFacts(s);
    SliceSpace(text, w.lo, w.hi, 0, TrimStart(s));
    SliceSpace(text, w.lo, w.hi, TrimEnd(s), |s|);
  }

  lemma SliceEnds(text: string, lo: nat, hi: nat)
    requires lo <= hi <= |text|
    requires Strip(text[lo..hi]) != []
    ensures var s := text[lo..hi];
      && TrimStart(s) < TrimEnd(s)
      && !IsSpace(text[lo + TrimStart(s)]) && !IsSpace(text[lo + TrimEnd(s) - 1])
  {
    var s := text[lo..hi];
    TrimOrder(s);
    SliceFirst(text, lo, hi);
    SliceLast(text, lo, hi);
  }

  lemma SliceFirst(text: string, lo: nat, hi: nat)
    requires lo <= hi <= |text| && TrimStart(text[lo..hi]) < hi - lo
    ensures !IsSpace(text[lo + TrimStart(text[lo..hi])])
  {
    var s := text[lo..hi];
    TrimStartStops(s);
    assert s[TrimStart(s)] == text[lo + TrimStart(s)];
  }

  lemma SliceLast(text: string, lo: nat, hi: nat)
    requires lo <= hi <= |text| && 0 < TrimEnd(text[lo..hi])
    ensures !IsSpace(text[lo + TrimEnd(text[lo..hi]) - 1])
  {
    var s := text[lo..hi];
    TrimEndStops(s);
    assert s[TrimEnd(s) - 1] == text[lo + TrimEnd(s) - 1];
  }

  lemma SliceStrip(text: string, lo: nat, hi: nat)
    requires lo <= hi <= |text|
    requires Strip(text[lo..hi]) != []
    ensures var s := text[lo..hi];
      && TrimStart(s) < TrimEnd(s)
      && Strip(s) == text[lo + TrimStart(s)..lo + TrimEnd(s)]
  {
    var s := text[lo..hi];
    StripInfix(s);
    SliceOfSlice(text, lo, hi, TrimStart(s), TrimEnd(s));
  }

  /** Positions `[a, b)` of the slice `text[lo..hi]` are whitespace there exactly when
      they are whitespace in the text. */
  lemma SliceSpace(text: string, lo: nat, hi: nat, a: nat, b: nat)
    requires lo <= hi <= |text| && a <= b <= hi - lo
    requires forall k :: a <= k < b ==> IsSpace(text[lo..hi][k])
    ensures forall p :: lo + a <= p < lo + b ==> IsSpace(text[p])
  {
    forall p | lo + a <= p < lo + b
      ensures IsSpace(text[p])
    {
      assert text[lo..hi][p - lo] == text[p];
    }
  }

  /** The span of every kept window, in window order. */
  function SpansOf(text: string, ws: seq<Window>): (sp: seq<Window>)
    requires InText(ws, |text|)
  {
    if ws == [] then []
    else
      var rest := SpansOf(text, ws[1..]);
      if Strip(text[ws[0].lo..ws[0].hi]) == [] then rest else [StripSpan(text, ws[0])] + rest
  }

  /** Chunk `k` is exactly the text of span `k`. */
  predicate Located(text: string, chunks: seq<string>, sp: seq<Window>) {
    && |sp| == |chunks|
    && forall k :: 0 <= k < |sp| ==>
         sp[k].lo < sp[k].hi <= |text| && chunks[k] == text[sp[k].lo..sp[k].hi]
  }

  lemma {:induction false} SpansLocateChunks(text: string, ws: seq<Window>)
    requires InText(ws, |text|)
    ensures Located(text, ChunksOf(text, ws), SpansOf(text, ws))
  {
    if ws != [] {
      var w := ws[0];
      SpansLocateChunks(text, ws[1..]);
      var c := Strip(text[w.lo..w.hi]);
      if c != [] {
        StripSpanFacts(text, w);
        LocatedCons(text, c, StripSpan(text, w), ChunksOf(text, ws[1..]), SpansOf(text, ws[1..]));
      }
    }
  }

  lemma LocatedCons(text: string, c: string, w: Window, chunks: seq<string>, sp: seq<Window>)
    requires w.lo < w.hi <= |text| && c == text[w.lo..w.hi]
    requires Located(text, chunks, sp)
    ensures Located(text, [c] + chunks, [w] + sp)
  {
    forall k | 1 <= k <= |sp|
      ensures ([c] + chunks)[k] == text[([w] + sp)[k].lo..([w] + sp)[k].hi]
    {
      assert ([c] + chunks)[k] == chunks[k - 1];
      assert ([w] + sp)[k] == sp[k - 1];
    }
  }

  /** Where each chunk of `chunk_text` lies in the text: chunk `k` is the text of span `k`. */
  function ChunkSpans(text: string, maxChars: nat, overlap: int): (sp: seq<Window>)
    requires Terminates(|text|, maxChars, overlap)
    ensures Located(text, Chunks(text, maxChars, overlap), sp)
  {
    SpansLocateChunks(text, Windows(|text|, maxChars, overlap));
    SpansOf(text, Windows(|text|, maxChars, overlap))
  }

  /** Both ends of the windows move (weakly) rightwards. */
  predicate Monotone(ws: seq<Window>) {
    forall a, b :: 0 <= a < b < |ws| ==> ws[a].lo <= ws[b].lo && ws[a].hi <= ws[b].hi
  }

  /** Neither end of `v` lies right of the same end of any window of `ws`. */
  predicate LeftOfAll(v: Window, ws: seq<Window>) {
    forall i :: 0 <= i < |ws| ==> v.lo <= ws[i].lo && v.hi <= ws[i].hi
  }

  lemma MonotoneCons(x: Window, ws: seq<Window>)
    requires Monotone(ws) && LeftOfAll(x, ws)
    ensures Monotone([x] + ws)
  {
    forall a, b | 0 <= a < b < |ws| + 1
      ensures ([x] + ws)[a].lo <= ([x] + ws)[b].lo && ([x] + ws)[a].hi <= ([x] + ws)[b].hi
    {
      assert ([x] + ws)[b] == ws[b - 1];
      if a > 0 {
        assert ([x] + ws)[a] == ws[a - 1];
      }
    }
  }

  lemma LeftOfAllCons(v: Window, x: Window, ws: seq<Window>)
    requires v.lo <= x.lo && v.hi <= x.hi && LeftOfAll(v, ws)
    ensures LeftOfAll(v, [x] + ws)
  {
    forall i | 1 <= i < |ws| + 1
      ensures v.lo <= ([x] + ws)[i].lo && v.hi <= ([x] + ws)[i].hi
    {
      assert ([x] + ws)[i] == ws[i - 1];
    }
  }

  lemma {:induction false} WindowsFromMonotone(n: nat, maxChars: nat, overlap: int, start: nat)
    requires Terminates(n, maxChars, overlap)
    ensures var ws := WindowsFrom(n, maxChars, overlap, start);
      Monotone(ws) && LeftOfAll(Window(start, Min(start + maxChars, n)), ws)
    decreases n - start
  {
    if start < n {
      var end := WindowEnd(start, n, maxChars);
      var w := Window(start, end);
      if end < n {
        var next := NextStart(end, overlap);
        WindowsFromMonotone(n, maxChars, overlap, next);
        var rest := WindowsFrom(n, maxChars, overlap, next);
        assert LeftOfAll(w, rest);
        MonotoneCons(w, rest);
        LeftOfAllCons(w, w, rest);
      }
    }
  }

  /** Stripping a window that lies weakly left of another gives a span weakly left of
      the other's span. */
  lemma StripSpanMonotone(text: string, u: Window, v: Window)
    requires u.lo <= u.hi <= |text| && v.lo <= v.hi <= |text|
    requires u.lo <= v.lo && u.hi <= v.hi
    requires Strip(text[u.lo..u.hi]) != [] && Strip(text[v.lo..v.hi]) != []
    ensures StripSpan(text, u).lo <= StripSpan(text, v).lo
    ensures StripSpan(text, u).hi <= StripSpan(text, v).hi
  {
    StripSpanFacts(text, u);
    StripSpanFacts(text, v);
  }

  lemma {:induction false} SpanBelowAll(text: string, u: Window, ws: seq<Window>)
    requires InText(ws, |text|) && u.lo <= u.hi <= |text|
    requires Strip(text[u.lo..u.hi]) != []
    requires LeftOfAll(u, ws)
    ensures LeftOfAll(StripSpan(text, u), SpansOf(text, ws))
  {
    if ws != [] {
      SpanBelowAll(text, u, ws[1..]);
      if Strip(text[ws[0].lo..ws[0].hi]) != [] {
        StripSpanMonotone(text, u, ws[0]);
        LeftOfAllCons(StripSpan(text, u), StripSpan(text, ws[0]), SpansOf(text, ws[1..]));
      }
    }
  }

  lemma {:induction false} SpansOfMonotone(text: string, ws: seq<Window>)
    requires InText(ws, |text|) && Monotone(ws)
    ensures Monotone(SpansOf(text, ws))
  {
    if ws != [] {
      SpansOfMonotone(text, ws[1..]);
      if Strip(text[ws[0].lo..ws[0].hi]) != [] {
        SpanBelowAll(text, ws[0], ws[1..]);
        MonotoneCons(StripSpan(text, ws[0]), SpansOf(text, ws[1..]));
      }
    }
  }

  /** Chunks come out in left-to-right order: both ends of their spans never move left. */
  lemma ChunksInTextOrder(text: string, maxChars: nat, overlap: int)
    requires Terminates(|text|, maxChars, overlap)
    ensures Monotone(ChunkSpans(text, maxChars, overlap))
  {
    WindowsFromMonotone(|text|, maxChars, overlap, 0);
    SpansOfMonotone(text, Windows(|text|, maxChars, overlap));
  }

  /** Position `p` lies inside some window of `ws`. */
  predicate Covers(ws: seq<Window>, p: nat) {
    exists k :: 0 <= k < |ws| && ws[k].lo <= p < ws[k].hi
  }

  lemma CoversCons(x: Window, ws: seq<Window>, p: nat)
    requires Covers(ws, p) || x.lo <= p < x.hi
    ensures Covers([x] + ws, p)
  {
    if x.lo <= p < x.hi {
      assert ([x] + ws)[0] == x;
    } else {
      var k :| 0 <= k < |ws| && ws[k].lo <= p < ws[k].hi;
      assert ([x] + ws)[k + 1] == ws[k];
    }
  }

  /** Windows that overlap or touch cover the whole range from the first start to the
      last end, so every non-whitespace character in that range lies in some span. */
  lemma {:induction false} SpansCover(text: string, ws: seq<Window>, p: nat)
    requires InText(ws, |text|) && ws != []
    requires forall i :: 0 <= i < |ws| - 1 ==> ws[i + 1].lo <= ws[i].hi
    requires ws[0].lo <= p < ws[|ws| - 1].hi
    requires !IsSpace(text[p])
    ensures Covers(SpansOf(text, ws), p)
  {
    var w := ws[0];
    var rest := SpansOf(text, ws[1..]);
    if p < w.hi {
      SpanOfWindowCovers(text, w, p);
      CoversCons(StripSpan(text, w), rest, p);
    } else {
      SpansCover(text, ws[1..], p);
      if Strip(text[w.lo..w.hi]) != [] {
        CoversCons(StripSpan(text, w), rest, p);
      }
    }
  }

  /** A non-whitespace character inside a window survives stripping: the window is
      kept and its span contains the character. */
  lemma SpanOfWindowCovers(text: string, w: Window, p: nat)
    requires w.lo <= p < w.hi <= |text| && !IsSpace(text[p])
    ensures Strip(text[w.lo..w.hi]) != []
    ensures StripSpan(text, w).lo <= p < StripSpan(text, w).hi
  {
    assert text[w.lo..w.hi][p - w.lo] == text[p];
    StripFacts(text[w.lo..w.hi]);
    StripSpanFacts(text, w);
  }

  /** With a non-negative overlap every non-whitespace character of the text lies
      inside the span of some emitted chunk. */
  lemma ChunksCoverText(text: string, maxChars: nat, overlap: int, p: nat)
    requires Terminates(|text|, maxChars, overlap) && 0 <= overlap
    requires p < |text| && !IsSpace(text[p])
    ensures Covers(ChunkSpans(text, maxChars, overlap), p)
  {
    WindowsRegular(|text|, maxChars, overlap);
    SpansCover(text, Windows(|text|, maxChars, overlap), p);
  }
}

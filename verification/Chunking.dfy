/** Splitting a text into chunks at break points chosen within a window of limited size. */
module Chunking {
  import opened Prelude

  /** The chunks and the gaps after them, joined in order. */
  function Weave(chunks: seq<string>, gaps: seq<string>): string
    requires |chunks| == |gaps|
  {
    if chunks == [] then ""
    else
      var n := |chunks| - 1;
      Weave(chunks[..n], gaps[..n]) + chunks[n] + gaps[n]
  }

  lemma WeaveOneMore(chunks: seq<string>, gaps: seq<string>, chunk: string, gap: string)
    requires |chunks| == |gaps|
    ensures Weave(chunks + [chunk], gaps + [gap]) == Weave(chunks, gaps) + chunk + gap
  {
    assert (chunks + [chunk])[..|chunks|] == chunks && (gaps + [gap])[..|gaps|] == gaps;
  }

  /** The text is the chunks in order, with only white space between and after them. */
  ghost predicate Covers(text: string, chunks: seq<string>, gaps: seq<string>) {
    && |chunks| == |gaps|
    && text == Weave(chunks, gaps)
    && (forall k :: 0 <= k < |chunks| ==> chunks[k] != "")
    && (forall k :: 0 <= k < |gaps| ==> IsBlank(gaps[k]))
  }

  /** How a chunk and the gap after it come out of a window: the whole window when the resolver finds no break,
      else the part before the break; and a break at white space swallows it. */
  ghost predicate CutFrom(window: string, breakIdx: int, chunk: string, gap: string) {
    if breakIdx <= 0 then chunk == window && gap == ""
    else if breakIdx > |window| then window <= chunk
    else
      && chunk == window[..breakIdx]
      && (breakIdx < |window| && IsSpace(window[breakIdx]) ==> gap != "" && gap[0] == window[breakIdx])
  }

  /** Chunk by chunk, the window is the next `limit` characters after what the earlier chunks and gaps make up, and it
      is cut where the resolver says; the gap after a break takes in all the white space there. */
  ghost predicate AllCut(
      text: string, resolver: string -> int, limit: int, windows: seq<string>, chunks: seq<string>, gaps: seq<string>)
  {
    && |windows| <= |chunks| == |gaps|
    && forall k :: 0 <= k < |windows| ==>
         && IsWindow(text, limit, windows[k], |Weave(chunks[..k], gaps[..k])|)
         && CutFrom(windows[k], resolver(windows[k]), chunks[k], gaps[k])
         && (resolver(windows[k]) > 0 ==> NoSpaceAt(text, |Weave(chunks[..k + 1], gaps[..k + 1])|))
  }

  predicate NoSpaceAt(text: string, i: nat) {
    i < |text| ==> !IsSpace(text[i])
  }

  /** The window at a position of the text, which does not reach the text's end. */
  ghost predicate IsWindow(text: string, limit: int, window: string, start: nat) {
    0 < limit && start + limit < |text| && window == text[start..start + limit]
  }

  lemma AllCutOneMore(
      text: string, resolver: string -> int, limit: int, windows: seq<string>, chunks: seq<string>, gaps: seq<string>,
      window: string, chunk: string, gap: string)
    requires AllCut(text, resolver, limit, windows, chunks, gaps) && |windows| == |chunks|
    requires IsWindow(text, limit, window, |Weave(chunks, gaps)|) && CutFrom(window, resolver(window), chunk, gap)
    requires resolver(window) > 0 ==> NoSpaceAt(text, |Weave(chunks + [chunk], gaps + [gap])|)
    ensures AllCut(text, resolver, limit, windows + [window], chunks + [chunk], gaps + [gap])
  {
    var w, c, g := windows + [window], chunks + [chunk], gaps + [gap];
    forall k | 0 <= k < |w|
      ensures IsWindow(text, limit, w[k], |Weave(c[..k], g[..k])|) && CutFrom(w[k], resolver(w[k]), c[k], g[k])
      ensures resolver(w[k]) > 0 ==> NoSpaceAt(text, |Weave(c[..k + 1], g[..k + 1])|)
    {
      if k < |windows| {
        assert c[..k] == chunks[..k] && g[..k] == gaps[..k];
        assert c[..k + 1] == chunks[..k + 1] && g[..k + 1] == gaps[..k + 1];
      } else {
        assert c[..k] == chunks && g[..k] == gaps;
        assert c[..k + 1] == c && g[..k + 1] == g;
      }
    }
  }

  lemma AllCutRest(
      text: string, resolver: string -> int, limit: int, windows: seq<string>, chunks: seq<string>, gaps: seq<string>,
      chunk: string)
    requires AllCut(text, resolver, limit, windows, chunks, gaps)
    ensures AllCut(text, resolver, limit, windows, chunks + [chunk], gaps + [""])
  {
    var c, g := chunks + [chunk], gaps + [""];
    forall k | 0 <= k < |windows|
      ensures IsWindow(text, limit, windows[k], |Weave(c[..k], g[..k])|)
      ensures CutFrom(windows[k], resolver(windows[k]), c[k], g[k])
      ensures resolver(windows[k]) > 0 ==> NoSpaceAt(text, |Weave(c[..k + 1], g[..k + 1])|)
    {
      assert c[..k] == chunks[..k] && g[..k] == gaps[..k];
      assert c[..k + 1] == chunks[..k + 1] && g[..k + 1] == gaps[..k + 1];
    }
  }

  /** `chunkTextByBreakResolver`. Beside the chunks, the ghost results name the gaps between them and the windows
      that were cut; the last chunk may be a remainder that needed no cutting. */
  method ChunkTextByBreakResolver(text: string, limit: int, resolver: string -> int)
    returns (chunks: seq<string>, ghost gaps: seq<string>, ghost windows: seq<string>)
    ensures Covers(text, chunks, gaps)
    ensures limit <= 0 && text != "" ==> chunks == [text]
    ensures |chunks| <= |windows| + 1 && AllCut(text, resolver, limit, windows, chunks, gaps)
    ensures limit > 0 && |chunks| > |windows| ==> |chunks[|windows|]| <= limit
  {
    chunks, gaps, windows := [], [], [];
    if text == "" { return; }
    if limit <= 0 || |text| <= limit {
      OneChunk(text);
      return [text], [""], [];
    }

    var start := 0;
    while start < |text|
      invariant 0 <= start <= |text| && |chunks| == |windows|
      invariant Covers(text[..start], chunks, gaps)
      invariant AllCut(text, resolver, limit, windows, chunks, gaps)
      decreases |text| - start
    {
      var end := if start + limit < |text| then start + limit else |text|;
      if end == |text| {
        CoverRest(text, start, chunks, gaps);
        AllCutRest(text, resolver, limit, windows, chunks, gaps, text[start..]);
        chunks, gaps := chunks + [text[start..]], gaps + [""];
        return;
      }

      var window := text[start..end];
      var breakIdx := resolver(window);
      if breakIdx <= 0 {
        CoverMore(text, start, end, end, chunks, gaps);
        assert text[end..end] == "";
        AllCutOneMore(text, resolver, limit, windows, chunks, gaps, window, window, "");
        chunks, gaps, windows := chunks + [window], gaps + [""], windows + [window];
        start := end;
      } else {
        var cut := if start + breakIdx < |text| then start + breakIdx else |text|;
        var next := SkipSpace(text, cut);
        CoverMore(text, start, cut, next, chunks, gaps);
        CutAt(text, start, end, breakIdx, cut, next);
        AllCutOneMore(text, resolver, limit, windows, chunks, gaps, window, text[start..cut], text[cut..next]);
        chunks, gaps, windows := chunks + [text[start..cut]], gaps + [text[cut..next]], windows + [window];
        start := next;
      }
    }
    assert text[..|text|] == text;
  }

  /** With a resolver that stays within its window no chunk is longer than the limit. */
  lemma ChunksFit(
      text: string, resolver: string -> int, limit: int, windows: seq<string>, chunks: seq<string>, gaps: seq<string>)
    requires |chunks| <= |windows| + 1 && AllCut(text, resolver, limit, windows, chunks, gaps)
    requires |chunks| > |windows| ==> |chunks[|windows|]| <= limit
    requires forall k :: 0 <= k < |windows| ==> resolver(windows[k]) <= |windows[k]|
    ensures forall k :: 0 <= k < |chunks| ==> |chunks[k]| <= limit
  {
    forall k | 0 <= k < |windows|
      ensures |chunks[k]| <= limit
    {
      assert CutFrom(windows[k], resolver(windows[k]), chunks[k], gaps[k]);
    }
  }

  /** The inner loop: skip the white space after a break. */
  method SkipSpace(text: string, from: nat) returns (next: nat)
    requires from <= |text|
    ensures from <= next <= |text|
    ensures forall k :: from <= k < next ==> IsSpace(text[k])
    ensures next < |text| ==> !IsSpace(text[next])
  {
    next := from;
    while next < |text| && IsSpace(text[next])
      invariant from <= next <= |text|
      invariant forall k :: from <= k < next ==> IsSpace(text[k])
    {
      next := next + 1;
    }
  }

  lemma OneChunk(text: string)
    requires text != ""
    ensures Covers(text, [text], [""])
  {
    WeaveOneMore([], [], text, "");
    assert [] + [text] == [text] && [] + [""] == [""];
  }

  lemma CoverRest(text: string, start: nat, chunks: seq<string>, gaps: seq<string>)
    requires start < |text| && Covers(text[..start], chunks, gaps)
    ensures Covers(text, chunks + [text[start..]], gaps + [""])
  {
    CoverMore(text, start, |text|, |text|, chunks, gaps);
    assert text[start..|text|] == text[start..] && text[|text|..|text|] == "";
    assert text[..|text|] == text;
  }

  /** Appending the chunk text[start..cut] and the white space text[cut..next]. */
  lemma CoverMore(text: string, start: nat, cut: nat, next: nat, chunks: seq<string>, gaps: seq<string>)
    requires start < cut <= next <= |text| && Covers(text[..start], chunks, gaps)
    requires forall k :: cut <= k < next ==> IsSpace(text[k])
    ensures Covers(text[..next], chunks + [text[start..cut]], gaps + [text[cut..next]])
  {
    WeaveOneMore(chunks, gaps, text[start..cut], text[cut..next]);
    assert text[..next] == text[..start] + text[start..cut] + text[cut..next];
  }

  lemma CutAt(text: string, start: nat, end: nat, breakIdx: int, cut: nat, next: nat)
    requires start < end <= |text| && breakIdx > 0
    requires cut == (if start + breakIdx < |text| then start + breakIdx else |text|) && cut <= next <= |text|
    requires next == |text| || !IsSpace(text[next])
    requires forall k :: cut <= k < next ==> IsSpace(text[k])
    ensures CutFrom(text[start..end], breakIdx, text[start..cut], text[cut..next])
  {
    var window := text[start..end];
    if breakIdx <= |window| {
      assert text[start..cut] == window[..breakIdx];
      if breakIdx < |window| && IsSpace(window[breakIdx]) {
        assert window[breakIdx] == text[cut];
        assert text[cut..next][0] == text[cut];
      }
    } else {
      assert window == text[start..cut][..|window|];
    }
  }

  // ------------------------------------------------------------------ newline, then space

  /** `lastIndexOf` */
  function LastIndexOf(s: string, c: char): (i: int)
    ensures -1 <= i < |s|
    ensures i >= 0 ==> s[i] == c
    ensures forall k :: i < k < |s| ==> s[k] != c
  {
    if s == "" then -1
    else if s[|s| - 1] == c then |s| - 1
    else LastIndexOf(s[..|s| - 1], c)
  }

  predicate NoneWithin(window: string, c: char, from: int) {
    forall k :: from < k < |window| && 0 <= k ==> window[k] != c
  }

  /** The best place to end a chunk: at the last newline of the window; without one, at the last space; without either,
      at the window's end. A newline or space that comes first does not count. */
  ghost predicate BestBreak(window: string, n: nat) {
    || (0 < n < |window| && window[n] == '\n' && NoneWithin(window, '\n', n))
    || (0 < n < |window| && window[n] == ' ' && NoneWithin(window, '\n', 0) && NoneWithin(window, ' ', n))
    || (n == |window| && NoneWithin(window, '\n', 0) && NoneWithin(window, ' ', 0))
  }

  /** The resolver of `chunkText`. */
  function BreakPoint(window: string): (i: int)
    ensures i < |window| && BestBreak(window, if i > 0 then i else |window|)
  {
    var lastNewline := LastIndexOf(window, '\n');
    if lastNewline > 0 then lastNewline
    else
      var lastSpace := LastIndexOf(window, ' ');
      if lastSpace > 0 then lastSpace else -1
  }

  /** `chunkText`: non-empty chunks within the limit, which with the white space between them make up the text. Every
      chunk but the last is the part before the best break of the next `limit` characters, and the gap after it
      begins with the newline or space of that break. */
  method ChunkText(text: string, limit: int) returns (chunks: seq<string>, ghost gaps: seq<string>)
    ensures Covers(text, chunks, gaps)
    ensures limit > 0 ==> forall k :: 0 <= k < |chunks| ==> |chunks[k]| <= limit
    ensures limit > 0 ==> forall k :: 0 <= k < |chunks| - 1 ==>
              && EndsAtBestBreak(text, limit, |Weave(chunks[..k], gaps[..k])|, chunks[k], gaps[k])
              && (|chunks[k]| < limit ==> NoSpaceAt(text, |Weave(chunks[..k + 1], gaps[..k + 1])|))
    ensures limit <= 0 && text != "" ==> chunks == [text]
  {
    if text == "" { return [], []; }
    if limit <= 0 || |text| <= limit {
      OneChunk(text);
      return [text], [""];
    }
    ghost var windows;
    chunks, gaps, windows := ChunkTextByBreakResolver(text, limit, BreakPoint);
    ChunksFit(text, BreakPoint, limit, windows, chunks, gaps);
    forall k | 0 <= k < |chunks| - 1
      ensures EndsAtBestBreak(text, limit, |Weave(chunks[..k], gaps[..k])|, chunks[k], gaps[k])
      ensures |chunks[k]| < limit ==> NoSpaceAt(text, |Weave(chunks[..k + 1], gaps[..k + 1])|)
    {
      assert CutFrom(windows[k], BreakPoint(windows[k]), chunks[k], gaps[k]);
    }
  }

  ghost predicate EndsAtBestBreak(text: string, limit: int, start: nat, chunk: string, gap: string) {
    && 0 < limit && start + limit < |text|
    && var window := text[start..start + limit];
       && chunk <= window && BestBreak(window, |chunk|)
       && if |chunk| < limit then gap != "" && gap[0] == window[|chunk|] else gap == ""
  }

  // ------------------------------------------------------------------ nothing is lost

  /** The characters that are not white space, in order. */
  function Visible(s: string): string {
    if s == "" then ""
    else Visible(s[..|s| - 1]) + (if IsSpace(s[|s| - 1]) then "" else [s[|s| - 1]])
  }

  function Joined(chunks: seq<string>): string {
    if chunks == [] then "" else Joined(chunks[..|chunks| - 1]) + chunks[|chunks| - 1]
  }

  lemma {:induction false} VisibleConcat(a: string, b: string)
    ensures Visible(a + b) == Visible(a) + Visible(b)
  {
    if b == "" {
      assert a + b == a;
    } else {
      var init := b[..|b| - 1];
      VisibleConcat(a, init);
      assert (a + b)[..|a + b| - 1] == a + init;
    }
  }

  lemma {:induction false} BlankIsInvisible(s: string)
    requires IsBlank(s)
    ensures Visible(s) == ""
  {
    if s != "" {
      BlankIsInvisible(s[..|s| - 1]);
    }
  }

  /** No character that is not white space is lost, duplicated or moved by chunking. */
  lemma {:induction false} NothingVisibleIsLost(text: string, chunks: seq<string>, gaps: seq<string>)
    requires Covers(text, chunks, gaps)
    ensures Visible(text) == Visible(Joined(chunks))
    decreases |chunks|
  {
    if chunks != [] {
      var n := |chunks| - 1;
      var before := Weave(chunks[..n], gaps[..n]);
      NothingVisibleIsLost(before, chunks[..n], gaps[..n]);
      VisibleConcat(before + chunks[n], gaps[n]);
      VisibleConcat(before, chunks[n]);
      BlankIsInvisible(gaps[n]);
      VisibleConcat(Joined(chunks[..n]), chunks[n]);
    }
  }
}

/** The part side of the multipart/form-data parser, as values: the part list, the
    current part, the content mode and the pending part pieces, and the callbacks that
    the chunk state machine invokes on them (handle_data, handle_boundary and the part
    functions behind them). */
module PartModel {
  import opened Bytes

  datatype Option<T> = None | Some(value: T)

  /** How the content of the current part is consumed: header lines or raw data. */
  datatype Mode = LineMode | DataMode

  /** Part kinds. Unknown is the zero value a part keeps when it is created
      between two boundaries; File is tested for but never assigned by the parser. */
  datatype PartKind = Unknown | Preamble | Epilogue | File

  /** One part: its kind, the number of bytes dispatched to it, and the value
      assembled from the pending pieces when it is finalized. */
  datatype Part = Part(kind: PartKind, len: nat, value: Option<seq<byte>>)

  /** One call of the data callback: the bytes and whether they end a line. */
  datatype Dispatch = Dispatch(bytes: seq<byte>, isLine: bool)

  /** What the callbacks read from the boundary matcher: the number of boundaries
      seen, whether the last boundary was seen, and the first byte of the line after
      the most recent line ending (the header-folding look-ahead). */
  datatype Context = Context(boundaryCount: nat, seenLastBoundary: bool, firstBoundaryByte: byte)

  /** The part-related fields of the parser. `lines` logs every header line surfaced. */
  datatype PartState = PartState(
    mode: Mode,
    piecesFormLine: bool,
    partPieces: seq<seq<byte>>,
    parts: seq<Part>,
    currentPart: Option<nat>,
    lines: seq<seq<byte>>)

  // ---------------------------------------------------------------------------
  // Invariants

  /** The current part, when there is one, is the last part of the list. */
  predicate CurrentOk(p: PartState) {
    p.currentPart.Some? ==> |p.parts| > 0 && p.currentPart.value == |p.parts| - 1
  }

  /** The current part is a preamble or an epilogue, whose content is not kept. */
  predicate Skipped(p: PartState)
    requires CurrentOk(p)
  {
    p.currentPart.Some? &&
    (p.parts[p.currentPart.value].kind == Preamble || p.parts[p.currentPart.value].kind == Epilogue)
  }

  /** Pending pieces exist only for a current part that keeps its content; between
      parts the mode is line mode. */
  predicate PartsOk(p: PartState) {
    CurrentOk(p) &&
    (p.currentPart.None? ==> p.partPieces == [] && p.mode == LineMode) &&
    (Skipped(p) ==> p.partPieces == [])
  }

  /** Number of finalized parts: all but the current one. */
  function FinalizedCount(p: PartState): (n: nat)
    requires CurrentOk(p)
    ensures n <= |p.parts|
    ensures p.currentPart.Some? <==> n < |p.parts|
  {
    if p.currentPart.Some? then |p.parts| - 1 else |p.parts|
  }

  /** The finalized parts of p are still the first parts of q, unchanged, and no part
      that was finalized has become current again. */
  predicate KeepsFinalized(p: PartState, q: PartState)
    requires CurrentOk(p) && CurrentOk(q)
  {
    FinalizedCount(p) <= FinalizedCount(q) &&
    q.parts[..FinalizedCount(p)] == p.parts[..FinalizedCount(p)]
  }

  /** Keeping the finalized parts composes along a sequence of operations. */
  lemma KeepsFinalizedTrans(a: PartState, b: PartState, c: PartState)
    requires CurrentOk(a) && CurrentOk(b) && CurrentOk(c)
    requires KeepsFinalized(a, b) && KeepsFinalized(b, c)
    ensures KeepsFinalized(a, c)
  {
    var k := FinalizedCount(a);
    assert c.parts[..k] == c.parts[..FinalizedCount(b)][..k];
    assert b.parts[..k] == b.parts[..FinalizedCount(b)][..k];
  }

  // ---------------------------------------------------------------------------
  // Part content (htp_mpart_part_handle_data)

  /** A header line is continued on the next line when that line starts with SP or HT. */
  predicate IsFoldLead(b: byte) {
    b == SP || b == HT
  }

  /** Length of a complete line once its terminator is ignored: a final LF, then a
      final CR, are dropped; a one-byte line loses only an LF. */
  function LineContentLength(data: seq<byte>): (n: nat)
    ensures n <= |data|
  {
    if |data| > 1 then
      var n1 := if data[|data| - 1] == LF then |data| - 1 else |data|;
      if data[n1 - 1] == CR then n1 - 1 else n1
    else if |data| == 1 && data[0] == LF then 0
    else |data|
  }

  /** The dropped suffix is nothing, LF, CR or CR LF, and it is the longest such
      suffix that the rule allows: nothing is dropped only when the line does not end
      in LF (nor, beyond one byte, in CR), an LF is dropped alone only when no CR
      precedes it, and a lone CR is dropped only from a line longer than one byte. */
  lemma LineContentLengthSpec(data: seq<byte>)
    ensures var n := LineContentLength(data);
      (data[n..] == [] || data[n..] == [LF] || data[n..] == [CR] || data[n..] == [CR, LF]) &&
      (data[n..] == [] ==> |data| == 0 || (data[|data| - 1] != LF && (|data| == 1 || data[|data| - 1] != CR))) &&
      (data[n..] == [LF] ==> n == 0 || data[n - 1] != CR) &&
      (data[n..] == [CR] ==> n > 0 && |data| > 1)
  {
  }

  /** What a part that keeps its content does with dispatched bytes. In line mode a
      complete line, once its terminator is ignored, either ends the headers (an empty
      line with nothing pending switches to data mode), is kept as a piece when the next
      line is a folded continuation, or is surfaced joined to the pending pieces, which
      are then cleared; an incomplete line is kept as a piece. In data mode the bytes are
      kept, unless the part is a file. */
  function KeepContent(p: PartState, fold: byte, kind: PartKind, data: seq<byte>, isLine: bool): (r: PartState)
    ensures r.parts == p.parts && r.currentPart == p.currentPart
  {
    if p.mode == LineMode then
      if isLine then
        var n := LineContentLength(data);
        if n == 0 && |p.partPieces| == 0 then
          p.(mode := DataMode)
        else if !IsFoldLead(fold) then
          p.(lines := p.lines + [Concat(p.partPieces + [data[..n]])], partPieces := [], piecesFormLine := false)
        else
          p.(partPieces := p.partPieces + [data[..n]], piecesFormLine := true)
      else
        p.(partPieces := p.partPieces + [data], piecesFormLine := false)
    else if kind != File then
      p.(partPieces := p.partPieces + [data])
    else p
  }

  /** The content rules of KeepContent, and that it touches nothing but the mode, the
      pending pieces and the surfaced lines. */
  lemma KeepContentSpec(p: PartState, fold: byte, kind: PartKind, data: seq<byte>, isLine: bool)
    ensures var r := KeepContent(p, fold, kind, data, isLine);
      r == p.(mode := r.mode, partPieces := r.partPieces, piecesFormLine := r.piecesFormLine, lines := r.lines)
    ensures var r := KeepContent(p, fold, kind, data, isLine);
      p.mode == DataMode ==>
      r.mode == DataMode && r.lines == p.lines && r.piecesFormLine == p.piecesFormLine &&
      r.partPieces == if kind == File then p.partPieces else p.partPieces + [data]
    ensures var r := KeepContent(p, fold, kind, data, isLine);
      p.mode == LineMode && !isLine ==>
      r.mode == LineMode && r.lines == p.lines && r.partPieces == p.partPieces + [data] && !r.piecesFormLine
    ensures var r := KeepContent(p, fold, kind, data, isLine);
      p.mode == LineMode && isLine ==>
      var n := LineContentLength(data);
      (r.mode == DataMode <==> n == 0 && p.partPieces == []) &&
      (r.mode == DataMode ==> r.partPieces == p.partPieces && r.lines == p.lines) &&
      (r.mode == LineMode && IsFoldLead(fold) ==>
         r.partPieces == p.partPieces + [data[..n]] && r.piecesFormLine && r.lines == p.lines) &&
      (r.mode == LineMode && !IsFoldLead(fold) ==>
         r.lines == p.lines + [Concat(p.partPieces) + data[..n]] && r.partPieces == [] && !r.piecesFormLine)
  {
    if p.mode == LineMode && isLine {
      ConcatAppend(p.partPieces, data[..LineContentLength(data)]);
    }
  }

  /** Dispatch of bytes to the current part (htp_mpart_part_handle_data). */
  function PartHandleData(p: PartState, fold: byte, data: seq<byte>, isLine: bool): (r: PartState)
    requires CurrentOk(p) && p.currentPart.Some?
    ensures r.currentPart == p.currentPart && |r.parts| == |p.parts|
  {
    var i := p.currentPart.value;
    var part := p.parts[i];
    var counted := p.(parts := p.parts[i := part.(len := part.len + |data|)]);
    if part.kind == Preamble || part.kind == Epilogue then counted
    else KeepContent(counted, fold, part.kind, data, isLine)
  }

  /** On every path the part's length grows by exactly the number of bytes and no other
      part changes; the content of a preamble or an epilogue is not kept, that of any
      other part is kept as KeepContent says. */
  lemma PartHandleDataSpec(p: PartState, fold: byte, data: seq<byte>, isLine: bool)
    requires CurrentOk(p) && p.currentPart.Some?
    ensures var r := PartHandleData(p, fold, data, isLine); var i := p.currentPart.value;
      r.parts == p.parts[i := p.parts[i].(len := p.parts[i].len + |data|)]
    ensures var r := PartHandleData(p, fold, data, isLine);
      Skipped(p) ==> r == p.(parts := r.parts)
    ensures var r := PartHandleData(p, fold, data, isLine);
      !Skipped(p) ==> r == KeepContent(p, fold, p.parts[p.currentPart.value].kind, data, isLine).(parts := r.parts)
  {
    var i := p.currentPart.value;
    var part := p.parts[i];
    var counted := p.(parts := p.parts[i := part.(len := part.len + |data|)]);
    if !Skipped(p) {
      KeepContentSpec(counted, fold, part.kind, data, isLine);
      KeepContentSpec(p, fold, part.kind, data, isLine);
    }
  }

  // ---------------------------------------------------------------------------
  // Parser-level callbacks (htp_mpartp_handle_data, htp_mpartp_handle_boundary)

  /** Kind a new part gets from the parser's counters. */
  function NewPartKind(ctx: Context): PartKind {
    if ctx.boundaryCount == 0 then Preamble
    else if ctx.seenLastBoundary then Epilogue
    else Unknown
  }

  /** Creation of a part (htp_mpart_part_create, then the kind selection and the push
      onto the part list): pending pieces are cleared; a preamble or epilogue forces
      data mode, any other part leaves the mode as it is. */
  function OpenPart(p: PartState, kind: PartKind): (r: PartState)
    requires p.currentPart.None?
    ensures r.parts == p.parts + [Part(kind, 0, None)]
    ensures r.currentPart == Some(|p.parts|) && CurrentOk(r)
    ensures r.partPieces == [] && !r.piecesFormLine && r.lines == p.lines
    ensures r.mode == if kind == Unknown then p.mode else DataMode
  {
    var created := p.(partPieces := [], piecesFormLine := false);
    var typed := if kind == Unknown then created else created.(mode := DataMode);
    typed.(parts := p.parts + [Part(kind, 0, None)], currentPart := Some(|p.parts|))
  }

  /** Parser-level dispatch (htp_mpartp_handle_data): empty input changes nothing;
      otherwise the bytes go to the current part, which is created first when there is
      none. */
  function HandleData(p: PartState, ctx: Context, data: seq<byte>, isLine: bool): (r: PartState)
    requires CurrentOk(p)
    ensures CurrentOk(r)
    ensures PartsOk(p) ==> PartsOk(r)
    ensures p.currentPart.Some? ==> r.currentPart == p.currentPart && |r.parts| == |p.parts|
    ensures |data| == 0 ==> r == p
  {
    if |data| == 0 then p
    else if p.currentPart.None? then PartHandleData(OpenPart(p, NewPartKind(ctx)), ctx.firstBoundaryByte, data, isLine)
    else PartHandleData(p, ctx.firstBoundaryByte, data, isLine)
  }

  /** Non-empty bytes always end up in a current part: a new one, of the kind the
      counters select and holding exactly these bytes' length, when there was none; a
      preamble or an epilogue starts in data mode with nothing pending. Finalized parts
      are never touched. */
  lemma HandleDataSpec(p: PartState, ctx: Context, data: seq<byte>, isLine: bool)
    requires CurrentOk(p)
    ensures var r := HandleData(p, ctx, data, isLine);
      KeepsFinalized(p, r) && (|data| > 0 ==> r.currentPart.Some?)
    ensures var r := HandleData(p, ctx, data, isLine);
      p.currentPart.None? && |data| > 0 ==>
        |r.parts| == |p.parts| + 1 && r.parts[..|p.parts|] == p.parts &&
        r.parts[|p.parts|] == Part(NewPartKind(ctx), |data|, None)
    ensures var r := HandleData(p, ctx, data, isLine);
      p.currentPart.Some? ==>
        r.parts == p.parts[p.currentPart.value := p.parts[p.currentPart.value].(len := p.parts[p.currentPart.value].len + |data|)]
    ensures var r := HandleData(p, ctx, data, isLine);
      p.currentPart.None? && |data| > 0 && NewPartKind(ctx) != Unknown ==>
        r.mode == DataMode && r.partPieces == [] && r.lines == p.lines
  {
    if |data| > 0 {
      var q := if p.currentPart.None? then OpenPart(p, NewPartKind(ctx)) else p;
      PartHandleDataSpec(q, ctx.firstBoundaryByte, data, isLine);
      var r := HandleData(p, ctx, data, isLine);
      if p.currentPart.None? {
        assert r.parts[..|p.parts|] == p.parts;
      } else {
        assert r.parts[..|p.parts| - 1] == p.parts[..|p.parts| - 1];
      }
    }
  }

  /** Data mode stays on: only a complete empty line in line mode switches the mode, and
      a new part either keeps the mode or forces data mode. */
  lemma HandleDataKeepsDataMode(p: PartState, ctx: Context, data: seq<byte>, isLine: bool)
    requires CurrentOk(p) && p.mode == DataMode
    ensures HandleData(p, ctx, data, isLine).mode == DataMode
  {
    if |data| > 0 {
      var q := if p.currentPart.None? then OpenPart(p, NewPartKind(ctx)) else p;
      PartHandleDataSpec(q, ctx.firstBoundaryByte, data, isLine);
      if !Skipped(q) {
        KeepContentSpec(q, ctx.firstBoundaryByte, q.parts[q.currentPart.value].kind, data, isLine);
      }
    }
  }

  /** A sequence of dispatches, performed in order. */
  function HandleAll(p: PartState, ctx: Context, ds: seq<Dispatch>): (r: PartState)
    requires CurrentOk(p)
    ensures CurrentOk(r)
    ensures PartsOk(p) ==> PartsOk(r)
    ensures p.currentPart.Some? ==> r.currentPart == p.currentPart && |r.parts| == |p.parts|
    decreases |ds|
  {
    if |ds| == 0 then p
    else HandleData(HandleAll(p, ctx, ds[..|ds| - 1]), ctx, ds[|ds| - 1].bytes, ds[|ds| - 1].isLine)
  }

  /** Dispatching one more entry after a sequence of dispatches. */
  lemma HandleAllAppend(p: PartState, ctx: Context, ds: seq<Dispatch>, d: Dispatch)
    requires CurrentOk(p)
    ensures HandleAll(p, ctx, ds + [d]) == HandleData(HandleAll(p, ctx, ds), ctx, d.bytes, d.isLine)
  {
    assert (ds + [d])[..|ds|] == ds;
  }

  /** Dispatching a sequence leaves every finalized part as it was and opens at most
      one part. */
  lemma {:induction false} HandleAllSpec(p: PartState, ctx: Context, ds: seq<Dispatch>)
    requires CurrentOk(p)
    ensures var r := HandleAll(p, ctx, ds);
      KeepsFinalized(p, r) && |p.parts| <= |r.parts| <= |p.parts| + 1 &&
      (r.currentPart.None? ==> r == p)
    decreases |ds|
  {
    if |ds| > 0 {
      var before := HandleAll(p, ctx, ds[..|ds| - 1]);
      HandleAllSpec(p, ctx, ds[..|ds| - 1]);
      HandleDataSpec(before, ctx, ds[|ds| - 1].bytes, ds[|ds| - 1].isLine);
      KeepsFinalizedTrans(p, before, HandleAll(p, ctx, ds));
    }
  }

  /** Finalization of the current part (htp_mpart_part_finalize_data): a part that keeps
      its content takes the joined pending pieces as its value, when there are any. */
  function FinalizeData(p: PartState): (r: PartState)
    requires CurrentOk(p) && p.currentPart.Some?
    ensures CurrentOk(r) && r.currentPart == p.currentPart
    ensures PartsOk(p) ==> r.partPieces == []
  {
    var i := p.currentPart.value;
    var part := p.parts[i];
    if part.kind == Preamble || part.kind == Epilogue then p
    else if |p.partPieces| > 0 then
      p.(parts := p.parts[i := part.(value := Some(Concat(p.partPieces)))], partPieces := [])
    else p
  }

  /** Only the current part's value and the pending pieces change, and only for a part
      that keeps its content and has pieces pending: the value is their concatenation. */
  lemma FinalizeDataSpec(p: PartState)
    requires CurrentOk(p) && p.currentPart.Some?
    ensures var r := FinalizeData(p);
      r == p.(parts := r.parts, partPieces := r.partPieces) &&
      |r.parts| == |p.parts| && r.parts[..|p.parts| - 1] == p.parts[..|p.parts| - 1]
    ensures var r := FinalizeData(p);
      Skipped(p) || p.partPieces == [] ==> r == p
    ensures var r := FinalizeData(p);
      !Skipped(p) && p.partPieces != [] ==>
        r.partPieces == [] &&
        r.parts[|p.parts| - 1] == p.parts[|p.parts| - 1].(value := Some(Concat(p.partPieces)))
  {
    var r := FinalizeData(p);
    assert r.parts[..|p.parts| - 1] == p.parts[..|p.parts| - 1];
  }

  /** Boundary event (htp_mpartp_handle_boundary): the current part, if any, is finalized
      and released, and the mode reverts to line mode for the next part's headers. */
  function HandleBoundary(p: PartState): (r: PartState)
    requires PartsOk(p)
    ensures PartsOk(r) && r.currentPart.None?
  {
    if p.currentPart.Some? then FinalizeData(p).(currentPart := None, mode := LineMode)
    else p
  }

  /** After a boundary every part is finalized, the pending pieces are gone, and the
      part that was current has its value; nothing else changes. */
  lemma HandleBoundarySpec(p: PartState)
    requires PartsOk(p)
    ensures var r := HandleBoundary(p);
      KeepsFinalized(p, r) && r.partPieces == [] && r.mode == LineMode &&
      r.lines == p.lines && r.piecesFormLine == p.piecesFormLine &&
      |r.parts| == |p.parts| && FinalizedCount(r) == |p.parts|
    ensures p.currentPart.None? ==> HandleBoundary(p) == p
    ensures var r := HandleBoundary(p);
      p.currentPart.Some? ==>
        r.parts[..|p.parts| - 1] == p.parts[..|p.parts| - 1] &&
        r.parts[|p.parts| - 1] ==
          if !Skipped(p) && p.partPieces != []
          then p.parts[|p.parts| - 1].(value := Some(Concat(p.partPieces)))
          else p.parts[|p.parts| - 1]
  {
    if p.currentPart.Some? {
      FinalizeDataSpec(p);
    }
  }
}

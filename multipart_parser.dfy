/** The multipart/form-data parser as an object whose methods update its fields in place,
    as htp_multipart.c does. Every method is proved to leave the object in the state that
    the value-level model in PartModel and ParseModel computes from the old state. */
module MultipartParser {
  import opened Bytes
  import opened PartModel
  import opened ParseModel

  class Parser {
    /** The delimiter pattern: CR LF "--" and the lowercased boundary. */
    const pattern: seq<byte>
    var state: ParserState
    var bpos: nat
    var boundarypos: nat
    var crAside: bool
    var boundaryCount: nat
    var seenLastBoundary: bool
    var firstBoundaryByte: byte
    var boundaryPieces: seq<seq<byte>>
    var mode: Mode
    var piecesFormLine: bool
    var partPieces: seq<seq<byte>>
    var parts: seq<Part>
    var currentPart: Option<nat>
    /** Every header line surfaced, in order. */
    ghost var lines: seq<seq<byte>>

    function Mt(): Matcher
      reads this`state, this`bpos, this`boundarypos, this`crAside, this`boundaryCount,
            this`seenLastBoundary, this`firstBoundaryByte, this`boundaryPieces
    {
      Matcher(pattern, state, bpos, boundarypos, crAside, boundaryCount, seenLastBoundary,
              firstBoundaryByte, boundaryPieces)
    }

    ghost function Ps(): PartState
      reads this`mode, this`piecesFormLine, this`partPieces, this`parts, this`currentPart, this`lines
    {
      PartState(mode, piecesFormLine, partPieces, parts, currentPart, lines)
    }

    ghost function Snap(): Machine
      reads this
    {
      Machine(Mt(), Ps())
    }

    ghost predicate Valid()
      reads this
    {
      ParseModel.Valid(Snap())
    }

    /** The position within a chunk together with the parser state. */
    ghost function Cur(pos: nat, startpos: nat, drp: nat): Cursor
      reads this
    {
      Cursor(Snap(), pos, startpos, drp)
    }

    /** htp_mpartp_create: the pattern is built in a buffer of |boundary| + 4 bytes. */
    constructor (boundary: seq<byte>)
      ensures Snap() == Initial(boundary) && Valid()
    {
      var blen := |boundary| + 4;
      var buf := new byte[blen];
      buf[0], buf[1], buf[2], buf[3] := CR, LF, DASH, DASH;
      var i := 4;
      while i < blen
        invariant 4 <= i <= blen
        invariant buf[0] == CR && buf[1] == LF && buf[2] == DASH && buf[3] == DASH
        invariant forall k :: 4 <= k < i ==> buf[k] == AsciiLower(boundary[k - 4])
      {
        buf[i] := AsciiLower(boundary[i - 4]);
        i := i + 1;
      }
      assert buf[..] == Pattern(boundary);
      pattern := buf[..];
      state := Boundary;
      bpos := 2;
      boundarypos := 0;
      crAside := false;
      boundaryCount := 0;
      seenLastBoundary := false;
      firstBoundaryByte := 0;
      boundaryPieces := [];
      mode := LineMode;
      piecesFormLine := false;
      partPieces := [];
      parts := [];
      currentPart := None;
      lines := [];
    }

    /** htp_mpart_part_create: a new part of unknown kind; the pending pieces are cleared. */
    method CreatePart() returns (part: Part)
      modifies this`mode, this`piecesFormLine, this`partPieces, this`parts, this`currentPart, this`lines
      ensures part == Part(Unknown, 0, None)
      ensures Mt() == old(Mt())
      ensures Ps() == old(Ps()).(piecesFormLine := false, partPieces := [])
    {
      part := Part(Unknown, 0, None);
      piecesFormLine := false;
      partPieces := [];
    }

    /** htp_mpart_part_handle_data: the part's length always grows; the content of a
        preamble or an epilogue is not kept. */
    method PartHandleData(data: seq<byte>, isLine: bool)
      requires CurrentOk(Ps()) && currentPart.Some?
      modifies this`mode, this`piecesFormLine, this`partPieces, this`parts, this`currentPart, this`lines
      ensures Mt() == old(Mt())
      ensures Ps() == PartModel.PartHandleData(old(Ps()), firstBoundaryByte, data, isLine)
    {
      var i := currentPart.value;
      parts := parts[i := parts[i].(len := parts[i].len + |data|)];
      var kind := parts[i].kind;
      if kind == Preamble || kind == Epilogue {
        return;
      }
      KeepContent(kind, data, isLine);
    }

    /** The rest of htp_mpart_part_handle_data, for a part that keeps its content:
        header lines are assembled in line mode, data is kept in data mode. */
    method KeepContent(kind: PartKind, data: seq<byte>, isLine: bool)
      modifies this`mode, this`piecesFormLine, this`partPieces, this`parts, this`currentPart, this`lines
      ensures Mt() == old(Mt())
      ensures Ps() == PartModel.KeepContent(old(Ps()), firstBoundaryByte, kind, data, isLine)
    {
      if mode == LineMode {
        if isLine {
          KeepLine(kind, data);
        } else {
          partPieces := partPieces + [data];
          piecesFormLine := false;
        }
      } else if kind != File {
        partPieces := partPieces + [data];
      }
    }

    /** The length of a line without its terminator, computed as the source does. */
    static method IgnoreLineEnding(data: seq<byte>) returns (len: nat)
      ensures len == LineContentLength(data)
    {
      len := |data|;
      if len > 1 {
        if data[len - 1] == LF {
          len := len - 1;
        }
        if data[len - 1] == CR {
          len := len - 1;
        }
      } else if len > 0 {
        if data[len - 1] == LF {
          len := len - 1;
        }
      }
    }

    /** A complete line in line mode: its terminator is ignored; an empty line with
        nothing pending ends the headers, a line followed by a folded continuation is
        kept as a piece, any other line is surfaced with the pieces before it. */
    method KeepLine(kind: PartKind, data: seq<byte>)
      requires mode == LineMode
      modifies this`mode, this`piecesFormLine, this`partPieces, this`parts, this`currentPart, this`lines
      ensures Mt() == old(Mt())
      ensures Ps() == PartModel.KeepContent(old(Ps()), firstBoundaryByte, kind, data, true)
    {
      var len := IgnoreLineEnding(data);
      if len == 0 && |partPieces| == 0 {
        mode := DataMode;
      } else if firstBoundaryByte != SP && firstBoundaryByte != HT {
        if |partPieces| > 0 {
          partPieces := partPieces + [data[..len]];
          lines := lines + [Concat(partPieces)];
          partPieces := [];
        } else {
          ConcatSingle(data[..len]);
          assert partPieces + [data[..len]] == [data[..len]];
          lines := lines + [data[..len]];
        }
        piecesFormLine := false;
      } else {
        partPieces := partPieces + [data[..len]];
        piecesFormLine := true;
      }
    }

    /** htp_mpart_part_finalize_data */
    method PartFinalizeData()
      requires CurrentOk(Ps()) && currentPart.Some?
      modifies this`mode, this`piecesFormLine, this`partPieces, this`parts, this`currentPart, this`lines
      ensures Mt() == old(Mt())
      ensures Ps() == FinalizeData(old(Ps()))
    {
      var i := currentPart.value;
      if parts[i].kind == Preamble || parts[i].kind == Epilogue {
        return;
      }
      if |partPieces| > 0 {
        parts := parts[i := parts[i].(value := Some(Concat(partPieces)))];
        partPieces := [];
      }
    }

    /** htp_mpartp_handle_data */
    method HandleData(data: seq<byte>, isLine: bool)
      requires CurrentOk(Ps())
      modifies this`mode, this`piecesFormLine, this`partPieces, this`parts, this`currentPart, this`lines
      ensures Mt() == old(Mt())
      ensures Ps() == PartModel.HandleData(old(Ps()), Ctx(old(Mt())), data, isLine)
    {
      if |data| == 0 {
        return;
      }
      if currentPart.None? {
        var part := CreatePart();
        if boundaryCount == 0 {
          part := part.(kind := Preamble);
          mode := DataMode;
        } else if seenLastBoundary {
          part := part.(kind := Epilogue);
          mode := DataMode;
        }
        parts := parts + [part];
        currentPart := Some(|parts| - 1);
      }
      PartHandleData(data, isLine);
    }

    /** htp_mpartp_handle_boundary */
    method HandleBoundary()
      requires PartsOk(Ps())
      modifies this`mode, this`piecesFormLine, this`partPieces, this`parts, this`currentPart, this`lines
      ensures Mt() == old(Mt())
      ensures Ps() == PartModel.HandleBoundary(old(Ps()))
    {
      if currentPart.Some? {
        PartFinalizeData();
        currentPart := None;
        mode := LineMode;
      }
    }

    /** htp_martp_process_aside: the stored pieces are dispatched one by one, as
        AsidePlan lays out. */
    method ProcessAside(matched: bool)
      requires PartsOk(Ps()) && AsideOk(Mt())
      modifies this
      ensures Snap() == ParseModel.ProcessAside(old(Snap()), matched)
    {
      if matched || mode == LineMode {
        AsideSplit(matched);
      } else {
        AsideAsData();
      }
    }

    /** The set-aside bytes after a match or in line mode: the withheld CR is dropped and
        the first piece is split at the candidate line ending. */
    method AsideSplit(matched: bool)
      requires PartsOk(Ps()) && AsideOk(Mt()) && (matched || mode == LineMode)
      modifies this
      ensures Mt() == old(Mt()).(crAside := false, boundaryPieces := [])
      ensures Ps() == HandleAll(old(Ps()), Ctx(old(Mt())), AsidePlan(old(Mt()), old(mode), matched))
    {
      ghost var mt0 := Mt();
      crAside := false;
      assert Mt() == mt0.(crAside := false);
      if |boundaryPieces| > 0 {
        if matched {
          SplitAtMatch();
        } else {
          SplitLine();
        }
        boundaryPieces := [];
      }
    }

    /** After a match, the part of the first piece before the candidate line ending is
        data; the rest of it, and every later piece, belongs to the delimiter. */
    method SplitAtMatch()
      requires CurrentOk(Ps()) && AsideOk(Mt()) && |boundaryPieces| > 0
      modifies this`mode, this`piecesFormLine, this`partPieces, this`parts, this`currentPart, this`lines
      ensures Mt() == old(Mt())
      ensures Ps() == HandleAll(old(Ps()), Ctx(Mt()), [Dispatch(TrimLineEnd(boundaryPieces[0][..boundarypos]), false)])
    {
      var b := boundaryPieces[0];
      var lx := TrimmedLength(b, boundarypos);
      DispatchOne(b[..lx], false, Ps(), Ctx(Mt()), []);
    }

    /** In line mode without a match, the part of the first piece up to the candidate
        line ending is a complete line; the rest of it, and every later piece, is data. */
    method SplitLine()
      requires CurrentOk(Ps()) && AsideOk(Mt()) && |boundaryPieces| > 0
      modifies this`mode, this`piecesFormLine, this`partPieces, this`parts, this`currentPart, this`lines
      ensures Mt() == old(Mt())
      ensures Ps() == HandleAll(old(Ps()), Ctx(Mt()),
        [Dispatch(boundaryPieces[0][..boundarypos], true), Dispatch(boundaryPieces[0][boundarypos..], false)]
        + DataPlan(boundaryPieces[1..]))
    {
      ghost var ctx := Ctx(Mt());
      ghost var p0 := Ps();
      var b := boundaryPieces[0];
      DispatchOne(b[..boundarypos], true, p0, ctx, []);
      DispatchOne(b[boundarypos..], false, p0, ctx, [Dispatch(b[..boundarypos], true)]);
      DispatchPieces(boundaryPieces[1..], p0, ctx, [Dispatch(b[..boundarypos], true), Dispatch(b[boundarypos..], false)]);
    }

    /** The set-aside bytes after a mismatch in data mode: the withheld CR and then
        every stored piece are data. */
    method AsideAsData()
      requires PartsOk(Ps()) && AsideOk(Mt()) && mode == DataMode
      modifies this
      ensures Mt() == old(Mt()).(crAside := false, boundaryPieces := [])
      ensures Ps() == HandleAll(old(Ps()), Ctx(old(Mt())), AsidePlan(old(Mt()), DataMode, false))
    {
      ghost var mt0 := Mt();
      ghost var ctx := Ctx(Mt());
      ghost var p0 := Ps();
      ghost var pre: seq<Dispatch> := if crAside then [Dispatch([CR], false)] else [];
      if crAside {
        DispatchOne([CR], false, p0, ctx, []);
        crAside := false;
      }
      assert Mt() == mt0.(crAside := false);
      DispatchPieces(boundaryPieces, p0, ctx, pre);
      boundaryPieces := [];
    }

    /** The given stored pieces, each dispatched as data. */
    method DispatchPieces(pieces: seq<seq<byte>>, ghost p0: PartState, ghost ctx: Context, ghost pre: seq<Dispatch>)
      requires CurrentOk(p0) && ctx == Ctx(Mt())
      requires Ps() == HandleAll(p0, ctx, pre)
      modifies this`mode, this`piecesFormLine, this`partPieces, this`parts, this`currentPart, this`lines
      ensures Mt() == old(Mt())
      ensures Ps() == HandleAll(p0, ctx, pre + DataPlan(pieces))
    {
      var i := 0;
      assert pre + DataPlan(pieces[..i]) == pre;
      while i < |pieces|
        invariant i <= |pieces| && ctx == Ctx(Mt())
        invariant Ps() == HandleAll(p0, ctx, pre + DataPlan(pieces[..i]))
      {
        ghost var ds := pre + DataPlan(pieces[..i]);
        DataPlanSnoc(pre, pieces, i);
        DispatchOne(pieces[i], false, p0, ctx, ds);
        i := i + 1;
      }
      assert pieces[..i] == pieces;
    }

    /** htp_mpartp_handle_data on one entry of a dispatch plan: the parts afterwards are
        those of the plan extended by that entry. */
    method DispatchOne(data: seq<byte>, isLine: bool, ghost p0: PartState, ghost ctx: Context,
                       ghost ds: seq<Dispatch>)
      requires CurrentOk(p0) && ctx == Ctx(Mt()) && Ps() == HandleAll(p0, ctx, ds)
      modifies this`mode, this`piecesFormLine, this`partPieces, this`parts, this`currentPart, this`lines
      ensures Mt() == old(Mt())
      ensures Ps() == HandleAll(p0, ctx, ds + [Dispatch(data, isLine)])
    {
      HandleAllAppend(p0, ctx, ds, Dispatch(data, isLine));
      HandleData(data, isLine);
    }

    /** The length of b[..n] once one line ending, LF or CR LF, is dropped from its end. */
    static method TrimmedLength(b: seq<byte>, n: nat) returns (lx: nat)
      requires n <= |b|
      ensures lx <= n && b[..lx] == TrimLineEnd(b[..n])
    {
      lx := n;
      if lx > 0 && b[lx - 1] == LF {
        lx := lx - 1;
        if lx > 0 && b[lx - 1] == CR {
          lx := lx - 1;
        }
      }
      assert b[..n][..lx] == b[..lx];
    }

    /** htp_mpartp_parse: one chunk of body bytes. The loop dispatches on the state;
        `reenter` stands for the jump back to the dispatch (goto STATE_SWITCH), which
        does not test for remaining input first, so that a delimiter candidate begun by
        the last byte of the chunk is still stored. The states after a matched delimiter
        read a byte only when one is left. */
    method Parse(data: seq<byte>)
      requires Valid()
      modifies this
      ensures Valid() && Snap() == ParseChunk(old(Snap()), data)
    {
      ghost var goal := ParseChunk(Snap(), data);
      var pos: nat, startpos: nat, drp: nat := 0, 0, 0;
      var reenter := false;
      ghost var finished := false;
      while pos < |data| || reenter
        invariant pos <= |data|
        invariant !finished ==> CursorOk(Cur(pos, startpos, drp), data) && Run(Cur(pos, startpos, drp), data) == goal
        invariant finished ==> Snap() == goal && pos == |data| && !reenter
        invariant !finished && !reenter && pos == |data| && |data| > 0 ==>
          state != Boundary && (state == Data ==> startpos == pos && !crAside)
        decreases if finished then 0 else 1, Progress(Cur(pos, startpos, drp), data), |data| - pos,
          StateRank(state), if crAside then 1 else 0, if reenter then 1 else 0
      {
        reenter := false;
        if state == Data {
          pos, drp, reenter, finished := DataCase(data, pos, startpos, drp, goal);
        } else if state == Boundary {
          pos, startpos, reenter, finished := BoundaryCase(data, pos, startpos, drp, goal);
        } else if pos < |data| {
          pos, startpos := TailCase(data, pos, startpos, drp, goal);
        }
      }
      if !finished {
        FinishQuiet(Cur(pos, startpos, drp), data);
        RunAtEnd(Cur(pos, startpos, drp), data);
      }
    }

    /** The Data state: a withheld CR is delivered unless the chunk opens with LF; bytes
        are taken up to a line ending, which starts a delimiter candidate; at the end of
        the chunk the data run is dispatched without a CR that ends it. */
    method DataCase(data: seq<byte>, pos0: nat, startpos: nat, drp0: nat, ghost goal: Machine)
      returns (pos: nat, drp: nat, reenter: bool, ghost finished: bool)
      requires state == Data && CursorOk(Cur(pos0, startpos, drp0), data)
      requires Run(Cur(pos0, startpos, drp0), data) == goal
      modifies this
      ensures finished == !reenter
      ensures finished ==> Snap() == goal && pos == |data|
      ensures reenter ==> (state == Boundary && CursorOk(Cur(pos, startpos, drp), data) &&
        Run(Cur(pos, startpos, drp), data) == goal &&
        Decreases(old(Cur(pos0, startpos, drp0)), Cur(pos, startpos, drp), data))
    {
      pos, drp := pos0, drp0;
      ghost var c0 := Cur(pos, startpos, drp);
      while pos < |data| && state == Data
        invariant (state == Data || state == Boundary) && CursorOk(Cur(pos, startpos, drp), data)
        invariant Run(Cur(pos, startpos, drp), data) == goal
        invariant Cur(pos, startpos, drp) == c0 || Decreases(c0, Cur(pos, startpos, drp), data)
        invariant state == Boundary ==> Decreases(c0, Cur(pos, startpos, drp), data)
        decreases |data| - pos, if crAside then 1 else 0
      {
        ghost var c := Cur(pos, startpos, drp);
        RunStep(c, data);
        assert Step(c, data) == DataStep(c, data);
        pos, drp := DataByte(data, pos, startpos, drp);
        if c != c0 {
          DecreasesTrans(c0, c, Cur(pos, startpos, drp), data);
        }
      }
      if state == Boundary {
        return pos, drp, true, false;
      }
      RunAtEnd(Cur(pos, startpos, drp), data);
      FlushData(data, pos, startpos, drp);
      return pos, drp, false, true;
    }

    /** One step of the Data state: the withheld CR, a line ending that starts a
        delimiter candidate, or one content byte. */
    method DataByte(data: seq<byte>, pos0: nat, startpos: nat, drp0: nat) returns (pos: nat, drp: nat)
      requires state == Data && CursorOk(Cur(pos0, startpos, drp0), data) && pos0 < |data|
      modifies this`crAside, this`boundarypos, this`bpos, this`state
      modifies this`mode, this`piecesFormLine, this`partPieces, this`parts, this`currentPart, this`lines
      ensures state == Data || state == Boundary
      ensures pos0 < pos <= |data| || (pos == pos0 && old(crAside) && !crAside)
      ensures Cur(pos, startpos, drp) == DataStep(old(Cur(pos0, startpos, drp0)), data)
    {
      if pos0 == 0 && crAside && data[0] != LF {
        DeliverCR(data, pos0, startpos, drp0);
        pos, drp := pos0, drp0;
      } else if data[pos0] == CR && pos0 + 1 < |data| && data[pos0 + 1] == LF {
        pos, drp := StartCandidate(data, pos0, startpos, drp0, pos0 + 2);
      } else if data[pos0] == LF {
        pos, drp := StartCandidate(data, pos0, startpos, drp0, pos0 + 1);
      } else {
        pos := TakeContentByte(data, pos0, startpos, drp0, data[pos0] == CR && pos0 + 1 == |data|);
        drp := drp0;
      }
    }

    /** Deliver the CR withheld at the end of the previous chunk. */
    method DeliverCR(data: seq<byte>, pos: nat, startpos: nat, drp: nat)
      requires state == Data && crAside && CursorOk(Cur(pos, startpos, drp), data)
      modifies this`crAside, this`mode, this`piecesFormLine, this`partPieces, this`parts, this`currentPart, this`lines
      ensures Cur(pos, startpos, drp) == DeliverWithheldCR(old(Cur(pos, startpos, drp)), data)
    {
      HandleData([CR], false);
      crAside := false;
    }

    /** A line ending ends just before `newPos`: a delimiter candidate starts there. */
    method StartCandidate(data: seq<byte>, pos0: nat, startpos: nat, drp0: nat, newPos: nat)
      returns (pos: nat, drp: nat)
      requires state == Data && CursorOk(Cur(pos0, startpos, drp0), data) && pos0 < newPos <= |data|
      modifies this`boundarypos, this`bpos, this`state
      ensures Cur(pos, startpos, drp) == EnterBoundary(old(Cur(pos0, startpos, drp0)), newPos, data)
    {
      pos, drp := newPos, newPos;
      boundarypos := newPos - startpos;
      bpos := 2;
      state := Boundary;
    }

    /** One content byte; `cr` records a CR withheld at the end of the chunk. */
    method TakeContentByte(data: seq<byte>, pos0: nat, startpos: nat, drp: nat, cr: bool) returns (pos: nat)
      requires state == Data && CursorOk(Cur(pos0, startpos, drp), data) && pos0 < |data|
      modifies this`crAside
      ensures Cur(pos, startpos, drp) == TakeByte(old(Cur(pos0, startpos, drp)), cr, data)
    {
      pos := pos0 + 1;
      crAside := cr;
    }

    /** End of the chunk in the Data state: the data run is dispatched without a CR that
        ends it. */
    method FlushData(data: seq<byte>, pos: nat, startpos: nat, drp: nat)
      requires state == Data && CursorOk(Cur(pos, startpos, drp), data) && pos == |data|
      modifies this`mode, this`piecesFormLine, this`partPieces, this`parts, this`currentPart, this`lines
      ensures Snap() == Finish(old(Cur(pos, startpos, drp)), data)
    {
      var n: int := pos - startpos - (if crAside then 1 else 0);
      if n > 0 {
        HandleData(data[startpos..startpos + n], false);
      }
    }

    /** The Boundary state: bytes are compared with the pattern (the first byte after the
        candidate's line ending is remembered); a mismatch or a complete match leaves the
        state; at the end of the chunk the candidate's bytes are stored. */
    method BoundaryCase(data: seq<byte>, pos0: nat, startpos0: nat, drp: nat, ghost goal: Machine)
      returns (pos: nat, startpos: nat, reenter: bool, ghost finished: bool)
      requires state == Boundary && CursorOk(Cur(pos0, startpos0, drp), data)
      requires Run(Cur(pos0, startpos0, drp), data) == goal
      modifies this
      ensures finished == !reenter
      ensures finished ==> Snap() == goal && pos == |data|
      ensures reenter ==> (state != Boundary && CursorOk(Cur(pos, startpos, drp), data) &&
        Run(Cur(pos, startpos, drp), data) == goal &&
        Decreases(old(Cur(pos0, startpos0, drp)), Cur(pos, startpos, drp), data))
    {
      pos, startpos := pos0, startpos0;
      ghost var c0 := Cur(pos, startpos, drp);
      while pos < |data| && state == Boundary
        invariant CursorOk(Cur(pos, startpos, drp), data)
        invariant Run(Cur(pos, startpos, drp), data) == goal
        invariant Cur(pos, startpos, drp) == c0 || Decreases(c0, Cur(pos, startpos, drp), data)
        invariant state != Boundary ==> Decreases(c0, Cur(pos, startpos, drp), data)
        decreases if state == Boundary then |data| - pos + 1 else 0
      {
        ghost var c := Cur(pos, startpos, drp);
        RunStep(c, data);
        assert Step(c, data) == BoundaryStep(c, data);
        pos, startpos := BoundaryByte(data, pos, startpos, drp);
        if c != c0 {
          DecreasesTrans(c0, c, Cur(pos, startpos, drp), data);
        }
      }
      if state != Boundary {
        return pos, startpos, true, false;
      }
      RunAtEnd(Cur(pos, startpos, drp), data);
      StoreCandidate(data, pos, startpos, drp);
      return pos, startpos, false, true;
    }

    /** One step of the Boundary state: the next byte is compared with the pattern. */
    method BoundaryByte(data: seq<byte>, pos0: nat, startpos0: nat, drp: nat) returns (pos: nat, startpos: nat)
      requires state == Boundary && CursorOk(Cur(pos0, startpos0, drp), data) && pos0 < |data|
      modifies this
      ensures state == Boundary ==> pos == pos0 + 1
      ensures Cur(pos, startpos, drp) == BoundaryStep(old(Cur(pos0, startpos0, drp)), data)
    {
      RememberFirstByte(data, pos0, startpos0, drp);
      if !PatternByteMatches(data[pos0], pattern[bpos]) {
        pos, startpos := Mismatch(data, pos0, startpos0, drp);
      } else if bpos + 1 == |pattern| {
        pos := MatchDelimiter(data, pos0, startpos0, drp);
        startpos := startpos0;
      } else {
        pos := MatchNextByte(data, pos0, startpos0, drp);
        startpos := startpos0;
      }
    }

    /** The first byte after the candidate's line ending is remembered. */
    method RememberFirstByte(data: seq<byte>, pos: nat, startpos: nat, drp: nat)
      requires state == Boundary && CursorOk(Cur(pos, startpos, drp), data) && pos < |data|
      modifies this`firstBoundaryByte
      ensures Cur(pos, startpos, drp) == RememberLineStart(old(Cur(pos, startpos, drp)), data)
    {
      if bpos == 2 {
        firstBoundaryByte := data[pos];
      }
    }

    /** One more pattern byte matched, the pattern not yet complete. */
    method MatchNextByte(data: seq<byte>, pos0: nat, startpos: nat, drp: nat) returns (pos: nat)
      requires state == Boundary && CursorOk(Cur(pos0, startpos, drp), data) && pos0 < |data|
      requires bpos + 1 < |pattern|
      modifies this`bpos
      ensures Cur(pos, startpos, drp) == MatchByte(old(Cur(pos0, startpos, drp)), data)
    {
      pos := pos0 + 1;
      bpos := bpos + 1;
    }

    /** End of the chunk in the Boundary state: the candidate's bytes of this chunk are
        stored. */
    method StoreCandidate(data: seq<byte>, pos: nat, startpos: nat, drp: nat)
      requires state == Boundary && CursorOk(Cur(pos, startpos, drp), data) && pos == |data|
      modifies this`boundaryPieces
      ensures Snap() == Finish(old(Cur(pos, startpos, drp)), data)
    {
      if startpos < |data| {
        boundaryPieces := boundaryPieces + [data[startpos..]];
      }
    }

    /** A byte that differs from the pattern: the set-aside bytes are reconciled; in line
        mode the candidate line is dispatched as a complete line and data resumes at
        this byte, in data mode scanning resumes after the candidate's line ending. */
    method Mismatch(data: seq<byte>, pos0: nat, startpos0: nat, drp: nat) returns (pos: nat, startpos: nat)
      requires state == Boundary && CursorOk(Cur(pos0, startpos0, drp), data) && pos0 < |data|
      modifies this
      ensures state == Data
      ensures Cur(pos, startpos, drp) == BoundaryMismatch(old(Cur(pos0, startpos0, drp)), data)
    {
      ProcessAside(false);
      if mode == LineMode {
        HandleData(data[startpos0..drp], true);
        pos, startpos := pos0, drp;
      } else {
        pos, startpos := drp, startpos0;
      }
      state := Data;
    }

    /** The whole pattern matched: the set-aside bytes and the bytes of this chunk before
        the delimiter are dispatched without the delimiter's line ending, the boundary is
        counted, the current part is finalized, and the dashes are checked next. */
    method MatchDelimiter(data: seq<byte>, pos0: nat, startpos: nat, drp: nat) returns (pos: nat)
      requires state == Boundary && CursorOk(Cur(pos0, startpos, drp), data) && pos0 < |data|
      requires bpos + 1 == |pattern|
      modifies this
      ensures state == BoundaryIsLast2
      ensures Cur(pos, startpos, drp) == BoundaryMatch(old(Cur(pos0, startpos, drp)), data)
    {
      ghost var m := Snap();
      MatchContent(data[startpos..drp]);
      ghost var ps := PartsAtMatch(m, data[startpos..drp]);
      assert Ps() == ps;
      boundaryCount := boundaryCount + 1;
      bpos := bpos + 1;
      state := BoundaryIsLast2;
      pos := pos0 + 1;
      assert Mt() == MatchedMatcher(m.mt) && Ps() == ps;
    }

    /** The parts at a match: set-aside bytes, then the content before the delimiter
        without its line ending, then the boundary closes the part. */
    method MatchContent(before: seq<byte>)
      requires MatcherOk(Mt()) && state == Boundary && PartsOk(Ps())
      modifies this
      ensures Mt() == old(Mt()).(crAside := false, boundaryPieces := [])
      ensures Ps() == PartsAtMatch(old(Snap()), before)
    {
      ProcessAside(true);
      var lx := TrimmedLength(before, |before|);
      assert before[..|before|] == before;
      HandleData(before[..lx], false);
      HandleBoundary();
    }

    /** The states after a matched delimiter: two dashes mark the last boundary; then
        bytes are skipped up to and including LF, after which data resumes. */
    method TailCase(data: seq<byte>, pos0: nat, startpos0: nat, drp: nat, ghost goal: Machine)
      returns (pos: nat, startpos: nat)
      requires state == BoundaryIsLast2 || state == BoundaryIsLast1 || state == BoundaryEatLF
      requires CursorOk(Cur(pos0, startpos0, drp), data) && pos0 < |data|
      requires Run(Cur(pos0, startpos0, drp), data) == goal
      modifies this`state, this`seenLastBoundary
      ensures CursorOk(Cur(pos, startpos, drp), data) && Run(Cur(pos, startpos, drp), data) == goal
      ensures Decreases(old(Cur(pos0, startpos0, drp)), Cur(pos, startpos, drp), data)
      ensures pos == |data| ==> state != Boundary && (state == Data ==> startpos == pos && !crAside)
    {
      ghost var c := Cur(pos0, startpos0, drp);
      RunTail(c, data);
      pos, startpos := pos0, startpos0;
      if state == BoundaryIsLast2 {
        if data[pos] == DASH {
          pos := pos + 1;
          state := BoundaryIsLast1;
        } else {
          state := BoundaryEatLF;
        }
      } else if state == BoundaryIsLast1 {
        if data[pos] == DASH {
          pos := pos + 1;
          seenLastBoundary := true;
          state := BoundaryEatLF;
        } else {
          state := BoundaryEatLF;
        }
      } else {
        if data[pos] == LF {
          pos := pos + 1;
          startpos := pos;
          state := Data;
        } else {
          pos := pos + 1;
        }
      }
      assert Cur(pos, startpos, drp) == TailStep(c, data);
    }

    /** htp_mpartp_finalize */
    method Finalize()
      requires Valid()
      modifies this
      ensures Snap() == ParseModel.Finalize(old(Snap()))
    {
      if currentPart.Some? {
        ProcessAside(false);
        PartFinalizeData();
      }
      boundaryPieces := [];
    }
  }
}

/** The chunk state machine of the multipart/form-data parser, as values: the boundary
    matcher's fields, the reconciliation of set-aside bytes, and one chunk of input run
    byte by byte. The class in MultipartParser performs the same operations in place and is
    proved to agree with these functions. */
module ParseModel {
  import opened Bytes
  import opened PartModel

  /** The states of the chunk state machine. */
  datatype ParserState = Data | Boundary | BoundaryIsLast2 | BoundaryIsLast1 | BoundaryEatLF

  /** The fields that only the state machine changes: the delimiter pattern and the
      position within it, the bytes set aside while a delimiter candidate spans chunks,
      and the boundary counters. */
  datatype Matcher = Matcher(
    pattern: seq<byte>,
    state: ParserState,
    bpos: nat,
    boundarypos: nat,
    crAside: bool,
    boundaryCount: nat,
    seenLastBoundary: bool,
    firstBoundaryByte: byte,
    boundaryPieces: seq<seq<byte>>)

  /** The whole parser: the matcher and the part side. */
  datatype Machine = Machine(mt: Matcher, ps: PartState)

  /** What the part callbacks read from the matcher. */
  function Ctx(mt: Matcher): Context {
    Context(mt.boundaryCount, mt.seenLastBoundary, mt.firstBoundaryByte)
  }

  // ---------------------------------------------------------------------------
  // Boundary pattern

  /** The delimiter the parser looks for: CR LF "--" and the lowercased boundary. */
  function Pattern(boundary: seq<byte>): (r: seq<byte>)
    ensures |r| == |boundary| + 4
    ensures r[..4] == [CR, LF, DASH, DASH]
    ensures forall i :: 0 <= i < |boundary| ==> r[i + 4] == AsciiLower(boundary[i])
  {
    [CR, LF, DASH, DASH] + LowerAll(boundary)
  }

  /** Comparison of an input byte with a pattern byte. The pattern is lowercased,
      so the input byte is lowercased too. */
  predicate PatternByteMatches(b: byte, p: byte) {
    AsciiLower(b) == p
  }

  /** Drops one line ending from the end of s: LF, or CR LF; a lone CR stays. */
  function TrimLineEnd(s: seq<byte>): (r: seq<byte>)
    ensures s == r + [CR, LF]
         || (s == r + [LF] && (|r| == 0 || r[|r| - 1] != CR))
         || (s == r && (|s| == 0 || s[|s| - 1] != LF))
  {
    if |s| > 0 && s[|s| - 1] == LF then
      var t := s[..|s| - 1];
      if |t| > 0 && t[|t| - 1] == CR then
        assert s == t[..|t| - 1] + [CR, LF];
        t[..|t| - 1]
      else t
    else s
  }

  // ---------------------------------------------------------------------------
  // Set-aside bytes (htp_martp_process_aside, htp_mpartp_finalize)

  /** The stored pieces start with the candidate line, which is at least boundarypos long. */
  predicate AsideOk(mt: Matcher) {
    |mt.boundaryPieces| > 0 ==> mt.boundarypos <= |mt.boundaryPieces[0]|
  }

  /** Every piece dispatched as plain data, in order. */
  function DataPlan(pieces: seq<seq<byte>>): (r: seq<Dispatch>)
    ensures |r| == |pieces|
  {
    if |pieces| == 0 then [] else DataPlan(pieces[..|pieces| - 1]) + [Dispatch(pieces[|pieces| - 1], false)]
  }

  /** One more stored piece dispatched as data extends the plan by one entry. */
  lemma DataPlanSnoc(pre: seq<Dispatch>, pieces: seq<seq<byte>>, i: nat)
    requires i < |pieces|
    ensures pre + DataPlan(pieces[..i + 1]) == (pre + DataPlan(pieces[..i])) + [Dispatch(pieces[i], false)]
  {
    assert pieces[..i + 1][..i] == pieces[..i];
  }

  /** The dispatches that reconcile the stored boundary pieces once the candidate
      delimiter is resolved. On a match only the content of the first piece before the
      candidate line ending is dispatched, without that line ending; on a mismatch in
      line mode the first piece is split into a line and data, the other pieces follow
      as data, and a withheld CR is dropped; on a mismatch in data mode a withheld CR and
      then every piece are dispatched as data. */
  function AsidePlan(mt: Matcher, mode: Mode, matched: bool): (r: seq<Dispatch>)
    requires AsideOk(mt)
  {
    if matched || mode == LineMode then
      if |mt.boundaryPieces| == 0 then []
      else
        var b := mt.boundaryPieces[0];
        if matched then [Dispatch(TrimLineEnd(b[..mt.boundarypos]), false)]
        else [Dispatch(b[..mt.boundarypos], true), Dispatch(b[mt.boundarypos..], false)]
             + DataPlan(mt.boundaryPieces[1..])
    else
      (if mt.crAside then [Dispatch([CR], false)] else []) + DataPlan(mt.boundaryPieces)
  }

  /** Reconciliation of the set-aside bytes: the plan is dispatched, and afterwards no
      boundary piece and no withheld CR remain. */
  function ProcessAside(m: Machine, matched: bool): (r: Machine)
    requires PartsOk(m.ps) && AsideOk(m.mt)
    ensures PartsOk(r.ps) && r.mt.boundaryPieces == [] && !r.mt.crAside
    ensures m.ps.currentPart.Some? ==> r.ps.currentPart == m.ps.currentPart && |r.ps.parts| == |m.ps.parts|
  {
    Machine(m.mt.(crAside := false, boundaryPieces := []),
            HandleAll(m.ps, Ctx(m.mt), AsidePlan(m.mt, m.ps.mode, matched)))
  }

  /** End of input (htp_mpartp_finalize): the set-aside bytes of an open part are
      dispatched as after a mismatch and the part is finalized; the part stays current. */
  function Finalize(m: Machine): (r: Machine)
    requires PartsOk(m.ps) && AsideOk(m.mt)
    ensures r.mt.boundaryPieces == [] && CurrentOk(r.ps)
    ensures r.ps.currentPart == m.ps.currentPart && |r.ps.parts| == |m.ps.parts|
  {
    if m.ps.currentPart.Some? then
      var a := ProcessAside(m, false);
      Machine(a.mt, FinalizeData(a.ps))
    else Machine(m.mt.(boundaryPieces := []), m.ps)
  }

  /** Finalizing leaves the finalized parts alone; with no open part it only drops the
      stored pieces; with an open part the withheld CR is gone and nothing stays
      pending. */
  lemma FinalizeSpec(m: Machine)
    requires PartsOk(m.ps) && AsideOk(m.mt)
    ensures KeepsFinalized(m.ps, Finalize(m).ps)
    ensures m.ps.currentPart.None? ==> Finalize(m) == Machine(m.mt.(boundaryPieces := []), m.ps)
    ensures m.ps.currentPart.Some? ==>
      var r := Finalize(m);
      r.mt == m.mt.(crAside := false, boundaryPieces := []) && r.ps.partPieces == []
  {
    if m.ps.currentPart.Some? {
      var a := ProcessAside(m, false);
      HandleAllSpec(m.ps, Ctx(m.mt), AsidePlan(m.mt, m.ps.mode, false));
      FinalizeDataSpec(a.ps);
      KeepsFinalizedTrans(m.ps, a.ps, Finalize(m).ps);
    }
  }

  // ---------------------------------------------------------------------------
  // The chunk state machine (htp_mpartp_parse)

  /** The matcher's own consistency between two chunks. */
  predicate MatcherOk(mt: Matcher) {
    |mt.pattern| >= 4 &&
    (mt.state == Boundary ==> 2 <= mt.bpos < |mt.pattern|) &&
    (|mt.boundaryPieces| > 0 ==> mt.state == Boundary) &&
    (mt.state != Data && mt.state != Boundary ==> !mt.crAside) &&
    AsideOk(mt)
  }

  /** The parser as created for a boundary (htp_mpartp_create): the pattern is built,
      and the first expected bytes are the dashes, since the body may open with the
      delimiter without a preceding line ending. */
  function Initial(boundary: seq<byte>): (r: Machine)
    ensures Valid(r) && r.mt.pattern == Pattern(boundary)
    ensures r.mt.state == Boundary && r.mt.bpos == 2 && r.mt.pattern[..r.mt.bpos] == [CR, LF]
    ensures r.mt.boundaryCount == 0 && !r.mt.seenLastBoundary && !r.mt.crAside && r.mt.boundaryPieces == []
    ensures r.ps.mode == LineMode && r.ps.partPieces == []
    ensures r.ps.parts == [] && r.ps.currentPart.None? && r.ps.lines == []
  {
    Machine(Matcher(Pattern(boundary), Boundary, 2, 0, false, 0, false, 0, []),
            PartState(LineMode, false, [], [], None, []))
  }

  /** The parser state between two chunks. */
  predicate Valid(m: Machine) {
    MatcherOk(m.mt) &&
    (m.mt.state == Boundary && |m.mt.boundaryPieces| == 0 ==> m.mt.boundarypos == 0) &&
    PartsOk(m.ps)
  }

  /** Position within one chunk: `pos` is the next byte, `startpos` the start of the
      data not yet dispatched, `drp` (data_return_pos) the position just after the line
      ending that started the current delimiter candidate. */
  datatype Cursor = Cursor(m: Machine, pos: nat, startpos: nat, drp: nat)

  predicate CursorOk(c: Cursor, data: seq<byte>) {
    var mt := c.m.mt;
    MatcherOk(mt) && PartsOk(c.m.ps) &&
    c.startpos <= c.pos <= |data| && c.drp <= c.pos &&
    (mt.state == Boundary ==> c.startpos <= c.drp) &&
    (mt.state == Boundary && |mt.boundaryPieces| == 0 ==> c.startpos + mt.boundarypos <= c.drp)
  }

  /** Switch to delimiter testing after a line ending that ends just before `newPos`. */
  function EnterBoundary(c: Cursor, newPos: nat, data: seq<byte>): (r: Cursor)
    requires CursorOk(c, data) && c.m.mt.state == Data && c.pos < newPos <= |data|
    ensures CursorOk(r, data) && Decreases(c, r, data)
  {
    var mt := c.m.mt.(boundarypos := newPos - c.startpos, bpos := 2, state := Boundary);
    Cursor(Machine(mt, c.m.ps), newPos, c.startpos, newPos)
  }

  /** After a line ending the delimiter is tested from its first dash, just after the
      line ending; the parts and the withheld CR are untouched. */
  lemma EnterBoundaryStarts(c: Cursor, newPos: nat, data: seq<byte>)
    requires CursorOk(c, data) && c.m.mt.state == Data && c.pos < newPos <= |data|
    ensures var r := EnterBoundary(c, newPos, data);
      r.m.mt.state == Boundary && r.m.mt.bpos == 2 && r.m.mt.pattern == c.m.mt.pattern &&
      r.pos == newPos && r.drp == newPos && r.m.ps == c.m.ps && r.m.mt.crAside == c.m.mt.crAside
  {
  }

  /** Take one content byte in the Data state, recording whether it is a withheld CR. */
  function TakeByte(c: Cursor, cr: bool, data: seq<byte>): (r: Cursor)
    requires CursorOk(c, data) && c.m.mt.state == Data && c.pos < |data|
    ensures CursorOk(r, data) && Decreases(c, r, data)
  {
    c.(m := Machine(c.m.mt.(crAside := cr), c.m.ps), pos := c.pos + 1)
  }

  /** Deliver the CR withheld at the end of the previous chunk as one data byte. */
  function DeliverWithheldCR(c: Cursor, data: seq<byte>): (r: Cursor)
    requires CursorOk(c, data) && c.m.mt.state == Data && c.m.mt.crAside
    ensures CursorOk(r, data) && Decreases(c, r, data)
  {
    c.(m := Machine(c.m.mt.(crAside := false), HandleData(c.m.ps, Ctx(c.m.mt), [CR], false)))
  }

  /** One step in the Data state. A CR withheld at the end of the previous chunk is
      delivered as data, unless the chunk starts with LF; a CR that is the last byte of
      the chunk is withheld; CR LF or LF starts a delimiter candidate; any other byte,
      including a CR followed by something other than LF, is content. */
  function DataStep(c: Cursor, data: seq<byte>): (r: Cursor)
    requires CursorOk(c, data) && c.m.mt.state == Data && c.pos < |data|
    ensures CursorOk(r, data) && Decreases(c, r, data)
  {
    var pos := c.pos;
    if pos == 0 && c.m.mt.crAside && data[0] != LF then DeliverWithheldCR(c, data)
    else if data[pos] == CR then
      if pos + 1 == |data| then TakeByte(c, true, data)
      else if data[pos + 1] == LF then EnterBoundary(c, pos + 2, data)
      else TakeByte(c, false, data)
    else if data[pos] == LF then EnterBoundary(c, pos + 1, data)
    else TakeByte(c, false, data)
  }

  /** A byte that differs from the pattern rejects the candidate: the set-aside bytes
      are reconciled; in line mode the candidate line is dispatched as a complete line
      and data resumes at the mismatching byte, in data mode scanning resumes just after
      the line ending that started the candidate. */
  function BoundaryMismatch(c: Cursor, data: seq<byte>): (r: Cursor)
    requires CursorOk(c, data) && c.m.mt.state == Boundary && c.pos < |data|
    ensures CursorOk(r, data) && Decreases(c, r, data)
  {
    var a := ProcessAside(c.m, false);
    if a.ps.mode == LineMode then
      var ps := HandleData(a.ps, Ctx(a.mt), data[c.startpos..c.drp], true);
      Cursor(Machine(a.mt.(state := Data), ps), c.pos, c.drp, c.drp)
    else
      Cursor(Machine(a.mt.(state := Data), a.ps), c.drp, c.startpos, c.drp)
  }

  /** A mismatch resumes the Data state with nothing set aside and no boundary counted,
      and never moves past the mismatching byte. After the set-aside bytes are
      reconciled, in line mode the bytes of this chunk up to the end of the candidate's
      line ending go to the part as one line and the next run starts there, the
      mismatching byte being examined again; in data mode the run keeps its start and
      scanning resumes just after the line ending, so the bytes matched so far become
      content. */
  lemma BoundaryMismatchResumes(c: Cursor, data: seq<byte>)
    requires CursorOk(c, data) && c.m.mt.state == Boundary && c.pos < |data|
    ensures var r := BoundaryMismatch(c, data);
      r.m.mt.state == Data && r.m.mt.boundaryPieces == [] && !r.m.mt.crAside &&
      r.m.mt.boundaryCount == c.m.mt.boundaryCount && r.pos <= c.pos
    ensures var a := ProcessAside(c.m, false);
      var r := BoundaryMismatch(c, data);
      r.m.mt == a.mt.(state := Data) && r.drp == c.drp &&
      (a.ps.mode == LineMode ==>
         r.startpos == c.drp && r.pos == c.pos && r.m.ps == HandleData(a.ps, Ctx(c.m.mt), data[c.startpos..c.drp], true)) &&
      (a.ps.mode != LineMode ==> r.startpos == c.startpos && r.pos == c.drp && r.m.ps == a.ps)
  {
  }

  /** The parts after a matched delimiter: the set-aside bytes and the bytes of this
      chunk before the delimiter are dispatched without the delimiter's line ending, and
      the current part is finalized. */
  function PartsAtMatch(m: Machine, before: seq<byte>): (r: PartState)
    requires PartsOk(m.ps) && AsideOk(m.mt)
    ensures PartsOk(r) && r.currentPart.None?
  {
    var a := ProcessAside(m, true);
    HandleBoundary(HandleData(a.ps, Ctx(a.mt), TrimLineEnd(before), false))
  }

  /** The matcher once the whole pattern matched: the boundary is counted once, no
      set-aside bytes remain, and the dashes are checked next. */
  function MatchedMatcher(mt: Matcher): (r: Matcher)
    requires MatcherOk(mt) && mt.state == Boundary && mt.bpos + 1 == |mt.pattern|
    ensures MatcherOk(r)
  {
    mt.(bpos := mt.bpos + 1, crAside := false, boundaryPieces := [],
        boundaryCount := mt.boundaryCount + 1, state := BoundaryIsLast2)
  }

  /** The whole pattern matched (the matched byte is consumed). */
  function BoundaryMatch(c: Cursor, data: seq<byte>): (r: Cursor)
    requires CursorOk(c, data) && c.m.mt.state == Boundary && c.pos < |data| && c.m.mt.bpos + 1 == |c.m.mt.pattern|
    ensures CursorOk(r, data) && Decreases(c, r, data)
  {
    var ps := PartsAtMatch(c.m, data[c.startpos..c.drp]);
    Cursor(Machine(MatchedMatcher(c.m.mt), ps), c.pos + 1, c.startpos, c.drp)
  }

  /** At the first byte after the candidate's line ending, that byte is remembered: it
      tells whether the line before continues as a folded header. */
  function RememberLineStart(c: Cursor, data: seq<byte>): (r: Cursor)
    requires CursorOk(c, data) && c.m.mt.state == Boundary && c.pos < |data|
    ensures CursorOk(r, data) && r.m.mt == c.m.mt.(firstBoundaryByte := r.m.mt.firstBoundaryByte)
    ensures r == c.(m := Machine(r.m.mt, c.m.ps))
    ensures r.m.mt.firstBoundaryByte == if c.m.mt.bpos == 2 then data[c.pos] else c.m.mt.firstBoundaryByte
  {
    if c.m.mt.bpos == 2 then c.(m := Machine(c.m.mt.(firstBoundaryByte := data[c.pos]), c.m.ps)) else c
  }

  /** One more pattern byte matched, the pattern not yet complete. */
  function MatchByte(c: Cursor, data: seq<byte>): (r: Cursor)
    requires CursorOk(c, data) && c.m.mt.state == Boundary && c.pos < |data| && c.m.mt.bpos + 1 < |c.m.mt.pattern|
    ensures CursorOk(r, data) && Decreases(c, r, data)
  {
    c.(m := Machine(c.m.mt.(bpos := c.m.mt.bpos + 1), c.m.ps), pos := c.pos + 1)
  }

  /** One step in the Boundary state: the next byte is compared with the pattern (the
      first byte of the candidate line is remembered for header folding). */
  function BoundaryStep(c: Cursor, data: seq<byte>): (r: Cursor)
    requires CursorOk(c, data) && c.m.mt.state == Boundary && c.pos < |data|
    ensures CursorOk(r, data) && Decreases(c, r, data)
  {
    var c1 := RememberLineStart(c, data);
    if !PatternByteMatches(data[c.pos], c.m.mt.pattern[c.m.mt.bpos]) then BoundaryMismatch(c1, data)
    else if c.m.mt.bpos + 1 == |c.m.mt.pattern| then BoundaryMatch(c1, data)
    else MatchByte(c1, data)
  }

  /** One step in the states after a matched delimiter: two dashes mark the last
      boundary, anything else is left for BoundaryEatLF, which skips bytes up to and
      including the next LF and then resumes data just after it. */
  function TailStep(c: Cursor, data: seq<byte>): (r: Cursor)
    requires CursorOk(c, data) && c.pos < |data|
    requires c.m.mt.state == BoundaryIsLast2 || c.m.mt.state == BoundaryIsLast1 || c.m.mt.state == BoundaryEatLF
    ensures CursorOk(r, data) && Decreases(c, r, data)
  {
    var mt := c.m.mt;
    match mt.state
    case BoundaryIsLast2 =>
      if data[c.pos] == DASH then c.(m := Machine(mt.(state := BoundaryIsLast1), c.m.ps), pos := c.pos + 1)
      else c.(m := Machine(mt.(state := BoundaryEatLF), c.m.ps))
    case BoundaryIsLast1 =>
      if data[c.pos] == DASH then
        c.(m := Machine(mt.(seenLastBoundary := true, state := BoundaryEatLF), c.m.ps), pos := c.pos + 1)
      else c.(m := Machine(mt.(state := BoundaryEatLF), c.m.ps))
    case BoundaryEatLF =>
      if data[c.pos] == LF then
        c.(m := Machine(mt.(state := Data), c.m.ps), pos := c.pos + 1, startpos := c.pos + 1)
      else c.(pos := c.pos + 1)
  }

  function StateRank(s: ParserState): nat {
    match s
    case BoundaryIsLast2 => 2
    case BoundaryIsLast1 => 1
    case _ => 0
  }

  /** Progress measure of the state machine: a delimiter candidate starts only after
      `drp` has advanced; every other step consumes a byte, moves down the tail states,
      or clears the withheld CR. */
  function Progress(c: Cursor, data: seq<byte>): int {
    2 * (|data| - c.drp) + (if c.m.mt.state == Data then 0 else 1)
  }

  /** The measure (Progress, bytes left, StateRank, withheld CR) decreases from c to r. */
  predicate Decreases(c: Cursor, r: Cursor, data: seq<byte>) {
    0 <= Progress(r, data) &&
    (Progress(r, data) < Progress(c, data) ||
     (Progress(r, data) == Progress(c, data) &&
      (r.pos > c.pos ||
       (r.pos == c.pos &&
        (StateRank(r.m.mt.state) < StateRank(c.m.mt.state) ||
         (StateRank(r.m.mt.state) == StateRank(c.m.mt.state) && c.m.mt.crAside && !r.m.mt.crAside))))))
  }

  /** One step of the state machine at a position inside the chunk. */
  function Step(c: Cursor, data: seq<byte>): (r: Cursor)
    requires CursorOk(c, data) && c.pos < |data|
    ensures CursorOk(r, data) && Decreases(c, r, data)
  {
    match c.m.mt.state
    case Data => DataStep(c, data)
    case Boundary => BoundaryStep(c, data)
    case _ => TailStep(c, data)
  }

  /** End of the chunk: a data run is dispatched without the withheld CR; the bytes of a
      delimiter candidate still being matched are stored as a boundary piece. */
  function Finish(c: Cursor, data: seq<byte>): (r: Machine)
    requires CursorOk(c, data) && c.pos == |data|
    ensures Valid(r)
  {
    var mt := c.m.mt;
    match mt.state
    case Data =>
      var n := c.pos - c.startpos - (if mt.crAside then 1 else 0);
      if n > 0 then Machine(mt, HandleData(c.m.ps, Ctx(mt), data[c.startpos..c.startpos + n], false)) else c.m
    case Boundary =>
      if c.startpos < |data| then Machine(mt.(boundaryPieces := mt.boundaryPieces + [data[c.startpos..]]), c.m.ps)
      else c.m
    case _ => c.m
  }

  /** At the end of a chunk reached without a pending data run or delimiter candidate,
      finishing the chunk changes nothing. */
  lemma FinishQuiet(c: Cursor, data: seq<byte>)
    requires CursorOk(c, data) && c.pos == |data|
    requires |data| == 0 || (c.m.mt.state != Boundary && (c.m.mt.state == Data ==> c.startpos == c.pos && !c.m.mt.crAside))
    ensures Finish(c, data) == c.m
  {
  }

  /** The state machine run from a cursor to the end of the chunk. */
  function Run(c: Cursor, data: seq<byte>): (r: Machine)
    requires CursorOk(c, data)
    ensures Valid(r)
    decreases Progress(c, data), |data| - c.pos, StateRank(c.m.mt.state), if c.m.mt.crAside then 1 else 0, 1
  {
    if c.pos >= |data| then Finish(c, data) else RunAfterStep(c, data)
  }

  /** The run that continues after the step at a position inside the chunk. */
  function RunAfterStep(c: Cursor, data: seq<byte>): (r: Machine)
    requires CursorOk(c, data) && c.pos < |data|
    ensures Valid(r)
    decreases Progress(c, data), |data| - c.pos, StateRank(c.m.mt.state), if c.m.mt.crAside then 1 else 0, 0
  {
    Run(Step(c, data), data)
  }

  /** One chunk of body bytes (htp_mpartp_parse). */
  function ParseChunk(m: Machine, data: seq<byte>): (r: Machine)
    requires Valid(m)
    ensures Valid(r)
  {
    Run(Cursor(m, 0, 0, 0), data)
  }

  // ---------------------------------------------------------------------------
  // The run, one path of a step at a time: what the parser's loops rely on

  /** A run that has reached the end of the chunk finishes it. */
  lemma RunAtEnd(c: Cursor, data: seq<byte>)
    requires CursorOk(c, data) && c.pos == |data|
    ensures Run(c, data) == Finish(c, data)
  {
  }

  /** Decreasing composes. */
  lemma DecreasesTrans(a: Cursor, b: Cursor, c: Cursor, data: seq<byte>)
    requires Decreases(a, b, data) && Decreases(b, c, data)
    ensures Decreases(a, c, data)
  {
  }

  /** A run inside the chunk takes one step. */
  lemma RunStep(c: Cursor, data: seq<byte>)
    requires CursorOk(c, data) && c.pos < |data|
    ensures Run(c, data) == Run(Step(c, data), data)
  {
  }

  /** A step in one of the states after a matched delimiter. */
  lemma RunTail(c: Cursor, data: seq<byte>)
    requires CursorOk(c, data) && c.pos < |data|
    requires c.m.mt.state == BoundaryIsLast2 || c.m.mt.state == BoundaryIsLast1 || c.m.mt.state == BoundaryEatLF
    ensures Run(c, data) == Run(TailStep(c, data), data)
  {
  }
}

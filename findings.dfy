/** Five places where htp_mpartp_parse, as written, departs from what its own comments and
    the rest of the parser evidently intend. Each has a member that follows the code as
    written, a lemma that exhibits the departure, and the property the corrected behaviour
    (the one ParseModel and MultipartParser use) has instead. */
module Findings {
  import opened Bytes
  import opened PartModel
  import opened ParseModel
  import opened ParseProperties

  // ---------------------------------------------------------------------------
  // 1. The dash test after a match reads past the chunk

  /** As written, a completed match jumps straight to the dash test, which reads the byte
      at the new position without testing that the chunk still has one. None stands for
      that read outside the chunk. */
  function AsWrittenAfterMatch(c: Cursor, data: seq<byte>): (r: Option<Cursor>)
    requires CursorOk(c, data) && c.m.mt.state == Boundary && c.pos < |data| && c.m.mt.bpos + 1 == |c.m.mt.pattern|
    ensures r.None? <==> c.pos + 1 == |data|
    ensures r.Some? ==> r.value.pos <= c.pos + 2
  {
    var b := BoundaryMatch(c, data);
    if b.pos < |data| then Some(TailStep(b, data)) else None
  }

  /** The first chunk "--a" of a body whose boundary is "a" runs up to its last byte,
      which completes the match; the dash test that follows, as written, reads outside
      the chunk. */
  lemma DashTestPastChunkEnd()
    ensures var data: seq<byte> := [DASH, DASH, 0x61];
      var c := Cursor(Initial([0x61]), 0, 0, 0);
      CursorOk(c, data) && MatchesRest(data, 0, c.m.mt.pattern, 2) &&
      Steps(c, data, 3) == Steps(MatchLast(c, data), data, 1) &&
      PatternByteMatches(data[MatchLast(c, data).pos], c.m.mt.pattern[4]) &&
      AsWrittenAfterMatch(MatchLast(c, data), data).None?
  {
    var data: seq<byte> := [DASH, DASH, 0x61];
    var c := Cursor(Initial([0x61]), 0, 0, 0);
    var p := c.m.mt.pattern;
    assert p == [CR, LF, DASH, DASH, 0x61];
    assert MatchesRest(data, 0, p, 2) by {
      forall j | 2 <= j < |p|
        ensures PatternByteMatches(data[0 + (j - 2)], p[j])
      {
        assert data[j - 2] == p[j];
      }
    }
    MatchSteps(c, data, 3);
  }

  /** Corrected: every step is taken only inside the chunk, so a match completed by the
      last byte of a chunk ends the chunk in the dash test's state, which the next chunk
      continues. */
  lemma MatchAtChunkEnd(c: Cursor, data: seq<byte>)
    requires CursorOk(c, data) && c.m.mt.state == Boundary && c.m.mt.bpos + 1 == |c.m.mt.pattern|
    requires c.pos + 1 == |data| && PatternByteMatches(data[c.pos], c.m.mt.pattern[c.m.mt.bpos])
    ensures Run(c, data) == BoundaryMatch(RememberLineStart(c, data), data).m
    ensures Run(c, data).mt.state == BoundaryIsLast2 && Run(c, data).mt.boundaryCount == c.m.mt.boundaryCount + 1
  {
    var b := BoundaryMatch(RememberLineStart(c, data), data);
    assert Step(c, data) == b;
    RunStep(c, data);
    RunAtEnd(b, data);
    FinishQuiet(b, data);
  }

  // ---------------------------------------------------------------------------
  // 2. The pattern is lowercased, the input is not

  /** As written, an input byte is compared with the lowercased pattern byte as is. */
  predicate AsWrittenByteMatches(b: byte, p: byte) {
    b == p
  }

  /** An upper-case letter of the declared boundary, sent exactly as declared, never
      matches its own pattern byte, so such a boundary is not recognised at all. */
  lemma DeclaredBoundaryMissed(boundary: seq<byte>, i: nat)
    requires i < |boundary| && IsAsciiUpper(boundary[i])
    ensures !AsWrittenByteMatches(boundary[i], Pattern(boundary)[i + 4])
  {
  }

  /** Corrected: the comparison lowercases the input byte too, so the delimiter is
      recognised in any letter case, in particular as declared. */
  lemma DeclaredBoundaryMatches(boundary: seq<byte>, i: nat, b: byte)
    requires i < |boundary|
    ensures PatternByteMatches(b, Pattern(boundary)[i + 4]) <==> AsciiLower(b) == AsciiLower(boundary[i])
    ensures PatternByteMatches(boundary[i], Pattern(boundary)[i + 4])
  {
  }

  // ---------------------------------------------------------------------------
  // 3 and 5. The Data state as written

  /** The Data state as written: a withheld CR is delivered at the start of every chunk,
      and a CR followed by a byte other than LF is neither consumed nor skipped. */
  function AsWrittenDataStep(c: Cursor, data: seq<byte>): (r: Cursor)
    requires CursorOk(c, data) && c.m.mt.state == Data && c.pos < |data|
    ensures CursorOk(r, data)
    ensures c.pos == 0 && c.m.mt.crAside ==> r.m.ps == HandleData(c.m.ps, Ctx(c.m.mt), [CR], false)
  {
    var pos := c.pos;
    if pos == 0 && c.m.mt.crAside then DeliverWithheldCR(c, data)
    else if data[pos] == CR then
      if pos + 1 == |data| then TakeByte(c, true, data)
      else if data[pos + 1] == LF then EnterBoundary(c, pos + 2, data)
      else c
    else if data[pos] == LF then EnterBoundary(c, pos + 1, data)
    else TakeByte(c, false, data)
  }

  /** n iterations of the Data loop as written, stopping early at the end of the chunk or
      when the state changes. */
  function AsWrittenScan(c: Cursor, data: seq<byte>, n: nat): (r: Cursor)
    requires CursorOk(c, data)
    ensures CursorOk(r, data)
    decreases n
  {
    if n == 0 || c.pos >= |data| || c.m.mt.state != Data then c
    else AsWrittenScan(AsWrittenDataStep(c, data), data, n - 1)
  }

  /** 3. When the previous chunk ended in CR and this one opens with LF, the code as written
      hands the CR to the part as content before it sees the LF, although the CR belongs to
      the line ending that may start a delimiter. The corrected step keeps the CR withheld
      and starts the delimiter candidate. */
  lemma SeamCRDelivered(c: Cursor, data: seq<byte>)
    requires CursorOk(c, data) && c.m.mt.state == Data && c.m.mt.crAside
    requires c.pos == 0 && 0 < |data| && data[0] == LF
    ensures AsWrittenDataStep(c, data) == DeliverWithheldCR(c, data)
    ensures AsWrittenDataStep(c, data).m.ps == HandleData(c.m.ps, Ctx(c.m.mt), [CR], false)
    ensures DataStep(c, data) == EnterBoundary(c, 1, data)
    ensures DataStep(c, data).m.ps == c.m.ps && DataStep(c, data).m.mt.crAside
  {
  }

  /** 3, corrected: a chunk that opens with LF and the rest of the delimiter after a
      withheld CR closes the current part without delivering the CR. */
  lemma SeamCRDiscarded(m: Machine, data: seq<byte>)
    requires Valid(m) && m.mt.state == Data && m.mt.crAside
    requires m.mt.pattern[..4] == [CR, LF, DASH, DASH]
    requires 0 < |data| && data[0] == LF && MatchesRest(data, 1, m.mt.pattern, 2)
    ensures var r := Steps(Cursor(m, 0, 0, 0), data, |m.mt.pattern| - 1);
      r.m.mt.state == BoundaryIsLast2 && !r.m.mt.crAside &&
      r.m.ps == HandleBoundary(m.ps)
  {
    var c := Cursor(m, 0, 0, 0);
    assert LineEndAt(data, 0, 1);
    DelimiterInChunk(c, data, 1);
    assert data[0..0] == [];
  }

  /** 5. A CR followed by a byte other than LF leaves the Data loop as written where it
      was: no number of iterations moves past it. */
  lemma {:induction false} LoneCRStalls(c: Cursor, data: seq<byte>, n: nat)
    requires CursorOk(c, data) && c.m.mt.state == Data && !(c.pos == 0 && c.m.mt.crAside)
    requires c.pos + 1 < |data| && data[c.pos] == CR && data[c.pos + 1] != LF
    ensures AsWrittenScan(c, data, n) == c
    decreases n
  {
    if n > 0 {
      assert AsWrittenDataStep(c, data) == c;
      LoneCRStalls(c, data, n - 1);
    }
  }

  /** 5, corrected: such a CR is content, and the scan moves on to the next byte. */
  lemma LoneCRIsContent(c: Cursor, data: seq<byte>)
    requires CursorOk(c, data) && c.m.mt.state == Data && !(c.pos == 0 && c.m.mt.crAside)
    requires c.pos + 1 < |data| && data[c.pos] == CR && data[c.pos + 1] != LF
    ensures DataStep(c, data) == c.(m := Machine(c.m.mt.(crAside := false), c.m.ps), pos := c.pos + 1)
    ensures Steps(c, data, 1) == DataStep(c, data)
  {
    StepsUnfold(c, data, 1);
  }

  // ---------------------------------------------------------------------------
  // 4. Content before an in-chunk delimiter keeps the delimiter's line ending

  /** As written, at a match the content of this chunk before the candidate is delivered
      up to the position just after the line ending, line ending included. */
  function AsWrittenPartsAtMatch(m: Machine, before: seq<byte>): (r: PartState)
    requires PartsOk(m.ps) && AsideOk(m.mt)
    ensures PartsOk(r) && r.currentPart.None?
  {
    var a := ProcessAside(m, true);
    HandleBoundary(HandleData(a.ps, Ctx(a.mt), before, false))
  }

  /** The same content reaches the part with its CR LF when the delimiter lies in the
      chunk, and without it when the delimiter started in an earlier chunk (set-aside
      bytes are trimmed, AsideDeliversMatch). */
  lemma InChunkLineEndKept(m: Machine, content: seq<byte>)
    requires PartsOk(m.ps) && AsideOk(m.mt)
    ensures var a := ProcessAside(m, true);
      AsWrittenPartsAtMatch(m, content + [CR, LF]) == HandleBoundary(HandleData(a.ps, Ctx(a.mt), content + [CR, LF], false)) &&
      PartsAtMatch(m, content + [CR, LF]) == HandleBoundary(HandleData(a.ps, Ctx(a.mt), content, false))
  {
    assert (content + [CR, LF])[..|content| + 1] == content + [CR];
    assert (content + [CR]) [..|content|] == content;
  }
}

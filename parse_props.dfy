/** Properties of the chunk state machine: what one step, a run to the end of a chunk
    and a whole chunk keep; how a delimiter is recognised and what it does to the
    parts; the states after a delimiter; and how content bytes and a withheld CR reach
    the current part. */
module ParseProperties {
  import opened Bytes
  import opened PartModel
  import opened ParseModel

  // ---------------------------------------------------------------------------
  // What the machine never undoes

  /** From m to r the pattern is the same, the boundary count and the last-boundary
      flag never go back, and every finalized part stays as it was. */
  predicate Advances(m: Machine, r: Machine)
    requires CurrentOk(m.ps) && CurrentOk(r.ps)
  {
    r.mt.pattern == m.mt.pattern &&
    m.mt.boundaryCount <= r.mt.boundaryCount &&
    (m.mt.seenLastBoundary ==> r.mt.seenLastBoundary) &&
    KeepsFinalized(m.ps, r.ps)
  }

  lemma AdvancesTrans(a: Machine, b: Machine, c: Machine)
    requires CurrentOk(a.ps) && CurrentOk(b.ps) && CurrentOk(c.ps)
    requires Advances(a, b) && Advances(b, c)
    ensures Advances(a, c)
  {
    KeepsFinalizedTrans(a.ps, b.ps, c.ps);
  }

  /** Reconciling the set-aside bytes keeps the finalized parts and the counters. */
  lemma ProcessAsideAdvances(m: Machine, matched: bool)
    requires PartsOk(m.ps) && AsideOk(m.mt)
    ensures Advances(m, ProcessAside(m, matched))
    ensures ProcessAside(m, matched).mt == m.mt.(crAside := false, boundaryPieces := [])
  {
    HandleAllSpec(m.ps, Ctx(m.mt), AsidePlan(m.mt, m.ps.mode, matched));
  }

  /** A mismatch keeps the finalized parts and the counters. */
  lemma MismatchAdvances(c: Cursor, data: seq<byte>)
    requires CursorOk(c, data) && c.m.mt.state == Boundary && c.pos < |data|
    ensures Advances(c.m, BoundaryMismatch(c, data).m)
    ensures BoundaryMismatch(c, data).m.mt.boundaryCount == c.m.mt.boundaryCount
  {
    var a := ProcessAside(c.m, false);
    ProcessAsideAdvances(c.m, false);
    if a.ps.mode == LineMode {
      HandleDataSpec(a.ps, Ctx(a.mt), data[c.startpos..c.drp], true);
      KeepsFinalizedTrans(c.m.ps, a.ps, BoundaryMismatch(c, data).m.ps);
    }
  }

  /** A match counts exactly one boundary, finalizes the current part and keeps every
      part finalized before. */
  lemma MatchAdvances(c: Cursor, data: seq<byte>)
    requires CursorOk(c, data) && c.m.mt.state == Boundary && c.pos < |data| && c.m.mt.bpos + 1 == |c.m.mt.pattern|
    ensures Advances(c.m, BoundaryMatch(c, data).m)
    ensures BoundaryMatch(c, data).m.mt.boundaryCount == c.m.mt.boundaryCount + 1
    ensures FinalizedCount(BoundaryMatch(c, data).m.ps) == |BoundaryMatch(c, data).m.ps.parts|
  {
    var a := ProcessAside(c.m, true);
    ProcessAsideAdvances(c.m, true);
    var before := TrimLineEnd(data[c.startpos..c.drp]);
    var d := HandleData(a.ps, Ctx(a.mt), before, false);
    HandleDataSpec(a.ps, Ctx(a.mt), before, false);
    HandleBoundarySpec(d);
    KeepsFinalizedTrans(c.m.ps, a.ps, d);
    KeepsFinalizedTrans(c.m.ps, d, HandleBoundary(d));
  }

  /** A step of the Data state changes no counter and at most the current part. */
  lemma DataStepAdvances(c: Cursor, data: seq<byte>)
    requires CursorOk(c, data) && c.m.mt.state == Data && c.pos < |data|
    ensures Advances(c.m, DataStep(c, data).m) && DataStep(c, data).m.mt.boundaryCount == c.m.mt.boundaryCount
  {
    if c.pos == 0 && c.m.mt.crAside && data[0] != LF {
      HandleDataSpec(c.m.ps, Ctx(c.m.mt), [CR], false);
    }
  }

  /** A step of the Boundary state counts a boundary exactly when it completes the
      pattern. */
  lemma BoundaryStepAdvances(c: Cursor, data: seq<byte>)
    requires CursorOk(c, data) && c.m.mt.state == Boundary && c.pos < |data|
    ensures var r := BoundaryStep(c, data);
      Advances(c.m, r.m) &&
      r.m.mt.boundaryCount == c.m.mt.boundaryCount + (if r.m.mt.state == BoundaryIsLast2 then 1 else 0)
  {
    var mt := c.m.mt;
    var c1 := RememberLineStart(c, data);
    if !PatternByteMatches(data[c.pos], mt.pattern[mt.bpos]) {
      MismatchAdvances(c1, data);
    } else if mt.bpos + 1 == |mt.pattern| {
      MatchAdvances(c1, data);
    }
  }

  /** One step keeps the finalized parts and the pattern, never lowers the counters,
      and counts at most one boundary: exactly when it completes a match. */
  lemma StepAdvances(c: Cursor, data: seq<byte>)
    requires CursorOk(c, data) && c.pos < |data|
    ensures var r := Step(c, data);
      Advances(c.m, r.m) &&
      r.m.mt.boundaryCount == c.m.mt.boundaryCount +
        (if c.m.mt.state == Boundary && r.m.mt.state == BoundaryIsLast2 then 1 else 0)
  {
    match c.m.mt.state
    case Data => DataStepAdvances(c, data);
    case Boundary => BoundaryStepAdvances(c, data);
    case _ =>
  }

  /** The end-of-chunk flush keeps the finalized parts and the counters. */
  lemma FinishAdvances(c: Cursor, data: seq<byte>)
    requires CursorOk(c, data) && c.pos == |data|
    ensures Advances(c.m, Finish(c, data)) && Finish(c, data).mt.boundaryCount == c.m.mt.boundaryCount
  {
    var mt := c.m.mt;
    if mt.state == Data {
      var n := c.pos - c.startpos - (if mt.crAside then 1 else 0);
      if n > 0 {
        HandleDataSpec(c.m.ps, Ctx(mt), data[c.startpos..c.startpos + n], false);
      }
    }
  }

  /** A run to the end of the chunk keeps the finalized parts and the pattern and never
      lowers the counters. */
  lemma {:induction false} RunAdvances(c: Cursor, data: seq<byte>)
    requires CursorOk(c, data)
    ensures Advances(c.m, Run(c, data))
    decreases Progress(c, data), |data| - c.pos, StateRank(c.m.mt.state), if c.m.mt.crAside then 1 else 0
  {
    if c.pos >= |data| {
      FinishAdvances(c, data);
    } else {
      var s := Step(c, data);
      RunStep(c, data);
      StepAdvances(c, data);
      RunAdvances(s, data);
      AdvancesTrans(c.m, s.m, Run(c, data));
    }
  }

  /** A chunk keeps every finalized part, never lowers the boundary count, and never
      clears the last-boundary flag. */
  lemma ParseChunkAdvances(m: Machine, data: seq<byte>)
    requires Valid(m)
    ensures Advances(m, ParseChunk(m, data))
  {
    RunAdvances(Cursor(m, 0, 0, 0), data);
  }

  // ---------------------------------------------------------------------------
  // Several steps at once

  /** n steps of the machine, or fewer when the chunk ends first. Steps, StepsInside and
      StepsAfterStep are one recursion split in three, so that the verifier unfolds a step
      only where a proof asks for it (StepsUnfold). */
  function Steps(c: Cursor, data: seq<byte>, n: nat): (r: Cursor)
    requires CursorOk(c, data)
    ensures CursorOk(r, data)
    decreases n, 2
  {
    if n == 0 || c.pos >= |data| then c else StepsInside(c, data, n)
  }

  function StepsInside(c: Cursor, data: seq<byte>, n: nat): (r: Cursor)
    requires CursorOk(c, data) && c.pos < |data| && n > 0
    ensures CursorOk(r, data)
    decreases n, 1
  {
    StepsAfterStep(c, data, n)
  }

  /** The steps that remain after the step at a position inside the chunk. */
  function StepsAfterStep(c: Cursor, data: seq<byte>, n: nat): (r: Cursor)
    requires CursorOk(c, data) && c.pos < |data| && n > 0
    ensures CursorOk(r, data)
    decreases n, 0
  {
    Steps(Step(c, data), data, n - 1)
  }

  /** Inside the chunk, n steps are one step followed by n - 1 more. */
  lemma StepsUnfold(c: Cursor, data: seq<byte>, n: nat)
    requires CursorOk(c, data) && c.pos < |data| && n > 0
    ensures Steps(c, data, n) == Steps(Step(c, data), data, n - 1)
  {
    assert Steps(c, data, n) == StepsInside(c, data, n) == StepsAfterStep(c, data, n);
  }

  /** A run may be entered after any number of its steps. */
  lemma {:induction false} RunSteps(c: Cursor, data: seq<byte>, n: nat)
    requires CursorOk(c, data)
    ensures Run(c, data) == Run(Steps(c, data, n), data)
    decreases n
  {
    if n > 0 && c.pos < |data| {
      var s := Step(c, data);
      RunStep(c, data);
      assert Run(c, data) == Run(s, data);
      StepsUnfold(c, data, n);
      assert Steps(c, data, n) == Steps(s, data, n - 1);
      RunSteps(s, data, n - 1);
    } else {
      assert Steps(c, data, n) == c;
    }
  }

  // ---------------------------------------------------------------------------
  // Recognising a delimiter (htp_mpartp_parse, the Boundary state)

  /** The bytes from pos on are the rest of the pattern from index k on. */
  predicate MatchesRest(data: seq<byte>, pos: nat, pattern: seq<byte>, k: nat) {
    k <= |pattern| && pos + (|pattern| - k) <= |data| &&
    forall j :: k <= j < |pattern| ==> PatternByteMatches(data[pos + (j - k)], pattern[j])
  }

  /** The cursor at which a match that continues from c reaches the last pattern byte:
      the rest of the pattern but its last byte consumed, and the first byte of the
      candidate line remembered. */
  function MatchLast(c: Cursor, data: seq<byte>): (r: Cursor)
    requires CursorOk(c, data) && c.m.mt.state == Boundary && c.pos + (|c.m.mt.pattern| - c.m.mt.bpos) <= |data|
    ensures CursorOk(r, data) && r.m.mt.state == Boundary && r.pos < |data| && r.m.mt.bpos + 1 == |r.m.mt.pattern|
  {
    var c1 := RememberLineStart(c, data);
    Cursor(Machine(c1.m.mt.(bpos := |c.m.mt.pattern| - 1), c.m.ps),
           c.pos + (|c.m.mt.pattern| - c.m.mt.bpos) - 1, c.startpos, c.drp)
  }

  /** A matched byte short of the end of the pattern is one MatchByte step. */
  lemma StepsMatchByte(c: Cursor, data: seq<byte>, n: nat)
    requires CursorOk(c, data) && c.m.mt.state == Boundary && c.pos < |data| && n > 0
    requires PatternByteMatches(data[c.pos], c.m.mt.pattern[c.m.mt.bpos]) && c.m.mt.bpos + 1 < |c.m.mt.pattern|
    ensures Steps(c, data, n) == Steps(MatchByte(RememberLineStart(c, data), data), data, n - 1)
  {
    StepsUnfold(c, data, n);
    assert Step(c, data) == MatchByte(RememberLineStart(c, data), data);
  }

  /** The byte that completes the pattern is one BoundaryMatch step. */
  lemma StepsMatchLast(c: Cursor, data: seq<byte>)
    requires CursorOk(c, data) && c.m.mt.state == Boundary && c.pos < |data|
    requires PatternByteMatches(data[c.pos], c.m.mt.pattern[c.m.mt.bpos]) && c.m.mt.bpos + 1 == |c.m.mt.pattern|
    ensures Steps(c, data, 1) == BoundaryMatch(RememberLineStart(c, data), data)
  {
    StepsUnfold(c, data, 1);
    assert Step(c, data) == BoundaryMatch(RememberLineStart(c, data), data);
  }

  /** A matched byte short of the end does not move the last pattern byte. */
  lemma MatchLastAfterByte(c: Cursor, data: seq<byte>)
    requires CursorOk(c, data) && c.m.mt.state == Boundary && c.pos + (|c.m.mt.pattern| - c.m.mt.bpos) <= |data|
    requires c.m.mt.bpos + 1 < |c.m.mt.pattern|
    ensures var s := MatchByte(RememberLineStart(c, data), data);
      s.m.mt.state == Boundary && MatchLast(s, data) == MatchLast(c, data)
  {
    var mt := c.m.mt;
    var c1 := RememberLineStart(c, data);
    var s := MatchByte(c1, data);
    assert s == Cursor(Machine(c1.m.mt.(bpos := mt.bpos + 1), c.m.ps), c.pos + 1, c.startpos, c.drp);
    assert RememberLineStart(s, data) == s;
    assert c1.m.mt.(bpos := mt.bpos + 1).(bpos := |mt.pattern| - 1) == c1.m.mt.(bpos := |mt.pattern| - 1);
  }

  /** When the rest of the pattern follows, the Boundary state consumes all of it but
      its last byte without any other effect than remembering the first byte after the
      line ending; the last byte is then one step away (StepsMatchLast). */
  lemma {:induction false} MatchSteps(c: Cursor, data: seq<byte>, n: nat)
    requires CursorOk(c, data) && c.m.mt.state == Boundary
    requires MatchesRest(data, c.pos, c.m.mt.pattern, c.m.mt.bpos) && n == |c.m.mt.pattern| - c.m.mt.bpos
    ensures Steps(c, data, n) == Steps(MatchLast(c, data), data, 1)
    decreases n
  {
    var mt := c.m.mt;
    if mt.bpos + 1 == |mt.pattern| {
      assert MatchLast(c, data) == c;
    } else {
      var s := MatchByte(RememberLineStart(c, data), data);
      assert Steps(c, data, n) == Steps(s, data, n - 1) by {
        assert PatternByteMatches(data[c.pos + (mt.bpos - mt.bpos)], mt.pattern[mt.bpos]);
        StepsMatchByte(c, data, n);
      }
      MatchLastAfterByte(c, data);
      assert MatchesRest(data, s.pos, s.m.mt.pattern, s.m.mt.bpos) by {
        forall j | s.m.mt.bpos <= j < |mt.pattern|
          ensures PatternByteMatches(data[s.pos + (j - s.m.mt.bpos)], mt.pattern[j])
        {
          assert s.pos + (j - s.m.mt.bpos) == c.pos + (j - mt.bpos);
        }
      }
      MatchSteps(s, data, n - 1);
    }
  }

  /** A line ending in the Data state is one EnterBoundary step. */
  lemma StepsEnterBoundary(c: Cursor, data: seq<byte>, eol: nat, n: nat)
    requires CursorOk(c, data) && c.m.mt.state == Data && n > 0
    requires !(c.pos == 0 && c.m.mt.crAside && 0 < |data| && data[0] != LF)
    requires LineEndAt(data, c.pos, eol)
    ensures Steps(c, data, n) == Steps(EnterBoundary(c, c.pos + eol, data), data, n - 1)
  {
    StepsUnfold(c, data, n);
    assert Step(c, data) == EnterBoundary(c, c.pos + eol, data);
  }

  /** A line ending of eol bytes at pos: LF, or CR LF. */
  predicate LineEndAt(data: seq<byte>, pos: nat, eol: nat) {
    (eol == 1 && pos < |data| && data[pos] == LF) ||
    (eol == 2 && pos + 1 < |data| && data[pos] == CR && data[pos + 1] == LF)
  }

  /** The bytes before a line ending, without that line ending. */
  lemma TrimBeforeLineEnd(data: seq<byte>, startpos: nat, pos: nat, eol: nat)
    requires startpos <= pos && LineEndAt(data, pos, eol)
    requires eol == 1 ==> startpos == pos || data[pos - 1] != CR
    ensures TrimLineEnd(data[startpos..pos + eol]) == data[startpos..pos]
  {
    var s := data[startpos..pos + eol];
    var t := s[..|s| - 1];
    assert s[|s| - 1] == LF;
    assert t == data[startpos..pos + eol - 1];
    if eol == 2 {
      assert t[|t| - 1] == CR;
      assert t[..|t| - 1] == data[startpos..pos];
    } else {
      assert |t| == 0 || t[|t| - 1] == data[pos - 1];
    }
  }

  /** The matcher once a candidate entered at a line ending has matched up to its last byte. */
  function LineEndMatcher(c: Cursor, eol: nat): Matcher
    requires |c.m.mt.pattern| >= 4 && c.startpos <= c.pos
  {
    c.m.mt.(boundarypos := c.pos + eol - c.startpos, bpos := |c.m.mt.pattern| - 1, state := Boundary,
            firstBoundaryByte := DASH)
  }

  /** The last pattern byte of a candidate entered at a line ending inside the chunk. */
  lemma MatchLastAtLineEnd(c: Cursor, data: seq<byte>, eol: nat)
    requires CursorOk(c, data) && c.m.mt.state == Data
    requires LineEndAt(data, c.pos, eol) && c.pos + eol + |c.m.mt.pattern| - 2 <= |data| && data[c.pos + eol] == DASH
    ensures MatchLast(EnterBoundary(c, c.pos + eol, data), data)
         == Cursor(Machine(LineEndMatcher(c, eol), c.m.ps), c.pos + eol + |c.m.mt.pattern| - 3, c.startpos, c.pos + eol)
  {
    var mt := c.m.mt;
    var e := EnterBoundary(c, c.pos + eol, data);
    assert e == Cursor(Machine(mt.(boundarypos := c.pos + eol - c.startpos, bpos := 2, state := Boundary), c.m.ps),
                       c.pos + eol, c.startpos, c.pos + eol);
    assert RememberLineStart(e, data).m.mt.(bpos := |mt.pattern| - 1) == LineEndMatcher(c, eol);
  }

  lemma PartsAtLineEnd(c: Cursor, data: seq<byte>, eol: nat, x: Cursor)
    requires CursorOk(c, data) && c.m.mt.state == Data
    requires LineEndAt(data, c.pos, eol)
    requires eol == 1 ==> c.startpos == c.pos || data[c.pos - 1] != CR
    requires x.m == Machine(LineEndMatcher(c, eol), c.m.ps) && x.startpos == c.startpos && x.drp == c.pos + eol
    ensures PartsAtMatch(x.m, data[x.startpos..x.drp])
         == HandleBoundary(HandleData(c.m.ps, Ctx(c.m.mt).(firstBoundaryByte := DASH), data[c.startpos..c.pos], false))
  {
    TrimBeforeLineEnd(data, c.startpos, c.pos, eol);
    PartsAtMatchNoAside(x.m, data[x.startpos..x.drp], data[c.startpos..c.pos], Ctx(c.m.mt).(firstBoundaryByte := DASH));
  }

  /** With nothing set aside, a match dispatches only the bytes before the line ending. */
  lemma PartsAtMatchNoAside(m: Machine, before: seq<byte>, content: seq<byte>, ctx: Context)
    requires PartsOk(m.ps) && AsideOk(m.mt) && m.mt.boundaryPieces == []
    requires TrimLineEnd(before) == content && Ctx(m.mt) == ctx
    ensures PartsAtMatch(m, before) == HandleBoundary(HandleData(m.ps, ctx, content, false))
  {
    assert AsidePlan(m.mt, m.ps.mode, true) == [];
  }

  /** The completed match of a candidate entered at a line ending: the matcher. */
  lemma MatchAtLineEnd(c: Cursor, data: seq<byte>, eol: nat, x: Cursor)
    requires CursorOk(c, data) && c.m.mt.state == Data
    requires LineEndAt(data, c.pos, eol) && c.pos + eol + |c.m.mt.pattern| - 2 <= |data|
    requires x == Cursor(Machine(LineEndMatcher(c, eol), c.m.ps), c.pos + eol + |c.m.mt.pattern| - 3, c.startpos, c.pos + eol)
    requires CursorOk(x, data)
    ensures var mt := c.m.mt;
      var r := BoundaryMatch(x, data);
      r.pos == c.pos + eol + |mt.pattern| - 2 && r.startpos == c.startpos &&
      r.m.mt == mt.(state := BoundaryIsLast2, bpos := |mt.pattern|, boundarypos := c.pos + eol - c.startpos,
                    boundaryCount := mt.boundaryCount + 1, firstBoundaryByte := DASH, crAside := false)
  {
  }

  /** The completed match of a candidate entered at a line ending: the parts. */
  lemma MatchAtLineEndParts(c: Cursor, data: seq<byte>, eol: nat, x: Cursor)
    requires CursorOk(c, data) && c.m.mt.state == Data
    requires LineEndAt(data, c.pos, eol) && c.pos + eol + |c.m.mt.pattern| - 2 <= |data|
    requires eol == 1 ==> c.startpos == c.pos || data[c.pos - 1] != CR
    requires x == Cursor(Machine(LineEndMatcher(c, eol), c.m.ps), c.pos + eol + |c.m.mt.pattern| - 3, c.startpos, c.pos + eol)
    requires CursorOk(x, data)
    ensures BoundaryMatch(x, data).m.ps
         == HandleBoundary(HandleData(c.m.ps, Ctx(c.m.mt).(firstBoundaryByte := DASH), data[c.startpos..c.pos], false))
  {
    PartsAtLineEnd(c, data, eol, x);
  }

  /** A delimiter found inside the chunk: after the line ending and the rest of the
      pattern, the parser has counted one boundary, checks the dashes next, and the
      current part received the bytes before the line ending, without the line ending,
      and was finalized. A CR withheld from the previous chunk and followed by the LF
      that starts the delimiter belongs to the delimiter and is not delivered. */
  lemma DelimiterInChunk(c: Cursor, data: seq<byte>, eol: nat)
    requires CursorOk(c, data) && c.m.mt.state == Data
    requires c.m.mt.pattern[..4] == [CR, LF, DASH, DASH]
    requires LineEndAt(data, c.pos, eol) && MatchesRest(data, c.pos + eol, c.m.mt.pattern, 2)
    requires c.m.mt.crAside ==> c.pos > 0 || data[0] == LF
    requires eol == 1 ==> c.startpos == c.pos || data[c.pos - 1] != CR
    ensures var mt := c.m.mt;
      var r := Steps(c, data, |mt.pattern| - 1);
      r.pos == c.pos + eol + |mt.pattern| - 2 && r.startpos == c.startpos &&
      r.m.mt == mt.(state := BoundaryIsLast2, bpos := |mt.pattern|, boundarypos := c.pos + eol - c.startpos,
                    boundaryCount := mt.boundaryCount + 1, firstBoundaryByte := DASH, crAside := false) &&
      r.m.ps == HandleBoundary(HandleData(c.m.ps, Ctx(mt).(firstBoundaryByte := DASH), data[c.startpos..c.pos], false))
  {
    var mt := c.m.mt;
    var p := mt.pattern;
    assert PatternByteMatches(data[c.pos + eol + (2 - 2)], p[2]);
    assert p[2] == DASH;
    var x := Cursor(Machine(LineEndMatcher(c, eol), c.m.ps), c.pos + eol + |p| - 3, c.startpos, c.pos + eol);
    DelimiterSteps(c, data, eol);
    MatchLastAtLineEnd(c, data, eol);
    assert PatternByteMatches(data[c.pos + eol + ((|p| - 1) - 2)], p[|p| - 1]);
    StepsMatchLast(x, data);
    assert RememberLineStart(x, data) == x;
    MatchAtLineEnd(c, data, eol, x);
    MatchAtLineEndParts(c, data, eol, x);
  }

  /** The line ending and the rest of the pattern but its last byte. */
  lemma DelimiterSteps(c: Cursor, data: seq<byte>, eol: nat)
    requires CursorOk(c, data) && c.m.mt.state == Data
    requires LineEndAt(data, c.pos, eol) && MatchesRest(data, c.pos + eol, c.m.mt.pattern, 2)
    requires c.m.mt.crAside ==> c.pos > 0 || data[0] == LF
    ensures c.pos + eol < |data|
    ensures Steps(c, data, |c.m.mt.pattern| - 1) == Steps(MatchLast(EnterBoundary(c, c.pos + eol, data), data), data, 1)
  {
    var e := EnterBoundary(c, c.pos + eol, data);
    var n := |c.m.mt.pattern| - 1;
    assert MatchesRest(data, e.pos, e.m.mt.pattern, e.m.mt.bpos) && n - 1 == |e.m.mt.pattern| - e.m.mt.bpos by {
      assert e.pos == c.pos + eol && e.m.mt.bpos == 2 && e.m.mt.pattern == c.m.mt.pattern && e.m.mt.state == Boundary;
    }
    assert Steps(c, data, n) == Steps(e, data, n - 1) by {
      StepsEnterBoundary(c, data, eol, n);
    }
    MatchSteps(e, data, n - 1);
    assert Steps(e, data, n - 1) == Steps(MatchLast(e, data), data, 1);
  }

  // ---------------------------------------------------------------------------
  // A delimiter candidate rejected, or cut off by the end of the chunk
  // (htp_mpartp_parse, the Boundary state)

  /** The pattern bytes from index k up to index j follow at pos. */
  predicate MatchesPart(data: seq<byte>, pos: nat, pattern: seq<byte>, k: nat, j: nat) {
    k <= j <= |pattern| && pos + (j - k) <= |data| &&
    forall i :: k <= i < j ==> PatternByteMatches(data[pos + (i - k)], pattern[i])
  }

  /** The cursor once k more pattern bytes have matched, the pattern not yet complete:
      the first byte of the candidate line is remembered if it was among them. */
  function MatchPrefix(c: Cursor, data: seq<byte>, k: nat): (r: Cursor)
    requires CursorOk(c, data) && c.m.mt.state == Boundary
    requires c.pos + k <= |data| && c.m.mt.bpos + k < |c.m.mt.pattern|
    ensures CursorOk(r, data) && r.m.mt.state == Boundary
  {
    var fbb := if k > 0 && c.m.mt.bpos == 2 then data[c.pos] else c.m.mt.firstBoundaryByte;
    Cursor(Machine(c.m.mt.(bpos := c.m.mt.bpos + k, firstBoundaryByte := fbb), c.m.ps), c.pos + k, c.startpos, c.drp)
  }

  /** k matching pattern bytes short of the last are k steps that change nothing but
      the position in the chunk and in the pattern and the remembered first byte. */
  lemma {:induction false} PrefixSteps(c: Cursor, data: seq<byte>, k: nat, n: nat)
    requires CursorOk(c, data) && c.m.mt.state == Boundary && k <= n
    requires MatchesPart(data, c.pos, c.m.mt.pattern, c.m.mt.bpos, c.m.mt.bpos + k)
    requires c.m.mt.bpos + k < |c.m.mt.pattern|
    ensures Steps(c, data, n) == Steps(MatchPrefix(c, data, k), data, n - k)
    decreases k
  {
    var mt := c.m.mt;
    if k == 0 {
      assert MatchPrefix(c, data, 0) == c;
    } else {
      assert PatternByteMatches(data[c.pos + (mt.bpos - mt.bpos)], mt.pattern[mt.bpos]);
      var s := MatchByte(RememberLineStart(c, data), data);
      StepsMatchByte(c, data, n);
      assert MatchesPart(data, s.pos, mt.pattern, s.m.mt.bpos, s.m.mt.bpos + (k - 1)) by {
        forall i | s.m.mt.bpos <= i < s.m.mt.bpos + (k - 1)
          ensures PatternByteMatches(data[s.pos + (i - s.m.mt.bpos)], mt.pattern[i])
        {
          assert s.pos + (i - s.m.mt.bpos) == c.pos + (i - mt.bpos);
        }
      }
      PrefixSteps(s, data, k - 1, n - 1);
      assert (n - 1) - (k - 1) == n - k;
      assert MatchPrefix(s, data, k - 1) == MatchPrefix(c, data, k);
    }
  }

  /** A delimiter candidate rejected inside the chunk: after a line ending at pos and k
      matching pattern bytes, a byte that differs from the pattern sends the parser back
      to the Data state without losing a byte. In line mode the bytes of the run up to
      the end of the line ending go to the part as one complete line, the first byte of
      the next line deciding folding, and the next run starts just after the line
      ending. In data mode nothing is dispatched but a withheld CR, the run keeps its
      start, and scanning resumes just after the line ending. (A CR withheld before an LF
      that opens the chunk is dropped in line mode.) */
  lemma MismatchInChunk(c: Cursor, data: seq<byte>, eol: nat, k: nat)
    requires CursorOk(c, data) && c.m.mt.state == Data
    requires LineEndAt(data, c.pos, eol)
    requires c.m.mt.crAside ==> c.pos > 0 || data[0] == LF
    requires 2 + k < |c.m.mt.pattern| && c.pos + eol + k < |data|
    requires MatchesPart(data, c.pos + eol, c.m.mt.pattern, 2, 2 + k)
    requires !PatternByteMatches(data[c.pos + eol + k], c.m.mt.pattern[2 + k])
    ensures var mt := c.m.mt;
      var q := c.pos + eol;
      var r := Steps(c, data, k + 2);
      r.m.mt == mt.(state := Data, bpos := 2 + k, boundarypos := q - c.startpos, crAside := false,
                    firstBoundaryByte := data[q]) &&
      r.drp == q
    ensures var mt := c.m.mt;
      var q := c.pos + eol;
      var ctx := Ctx(mt).(firstBoundaryByte := data[q]);
      var r := Steps(c, data, k + 2);
      (c.m.ps.mode == LineMode ==>
         r.startpos == q && r.pos == q + k && r.m.ps == HandleData(c.m.ps, ctx, data[c.startpos..q], true)) &&
      (c.m.ps.mode == DataMode ==>
         r.startpos == c.startpos && r.pos == q &&
         r.m.ps == if mt.crAside then HandleData(c.m.ps, ctx, [CR], false) else c.m.ps)
  {
    MismatchSteps(c, data, eol, k);
    MismatchAfterPrefix(c, data, eol, k, CandidateAt(c, data, eol, k));
  }

  /** The candidate entered at a line ending at pos, k matched bytes into the pattern,
      with the first byte of the candidate line remembered. */
  function CandidateAt(c: Cursor, data: seq<byte>, eol: nat, k: nat): (r: Cursor)
    requires CursorOk(c, data) && c.m.mt.state == Data
    requires LineEndAt(data, c.pos, eol) && 2 + k < |c.m.mt.pattern| && c.pos + eol + k < |data|
    ensures CursorOk(r, data) && r.m.mt.state == Boundary
  {
    var q := c.pos + eol;
    Cursor(Machine(c.m.mt.(boundarypos := q - c.startpos, bpos := 2 + k, state := Boundary, firstBoundaryByte := data[q]),
                   c.m.ps),
           q + k, c.startpos, q)
  }

  /** The line ending, k matching bytes and the mismatching byte are k + 2 steps. */
  lemma MismatchSteps(c: Cursor, data: seq<byte>, eol: nat, k: nat)
    requires CursorOk(c, data) && c.m.mt.state == Data
    requires LineEndAt(data, c.pos, eol)
    requires c.m.mt.crAside ==> c.pos > 0 || data[0] == LF
    requires 2 + k < |c.m.mt.pattern| && c.pos + eol + k < |data|
    requires MatchesPart(data, c.pos + eol, c.m.mt.pattern, 2, 2 + k)
    requires !PatternByteMatches(data[c.pos + eol + k], c.m.mt.pattern[2 + k])
    ensures Steps(c, data, k + 2) == BoundaryMismatch(CandidateAt(c, data, eol, k), data)
  {
    var x := MatchPrefix(EnterBoundary(c, c.pos + eol, data), data, k);
    assert Steps(c, data, k + 2) == Steps(x, data, 1) by {
      LineEndPrefixSteps(c, data, eol, k, x, k + 2);
      assert k + 2 - 1 - k == 1;
    }
    MismatchStep(c, data, eol, k, x);
  }

  /** The mismatching byte is one step. */
  lemma MismatchStep(c: Cursor, data: seq<byte>, eol: nat, k: nat, x: Cursor)
    requires CursorOk(c, data) && c.m.mt.state == Data
    requires LineEndAt(data, c.pos, eol) && 2 + k < |c.m.mt.pattern| && c.pos + eol + k < |data|
    requires !PatternByteMatches(data[c.pos + eol + k], c.m.mt.pattern[2 + k])
    requires x == MatchPrefix(EnterBoundary(c, c.pos + eol, data), data, k)
    ensures Steps(x, data, 1) == BoundaryMismatch(CandidateAt(c, data, eol, k), data)
  {
    PrefixCandidate(c, data, eol, k, x);
    EnterBoundaryStarts(c, c.pos + eol, data);
    assert x.pos == c.pos + eol + k && x.m.mt.bpos == 2 + k && x.m.mt.pattern == c.m.mt.pattern;
    StepsUnfold(x, data, 1);
    assert Step(x, data) == BoundaryMismatch(RememberLineStart(x, data), data);
  }

  /** Remembering the first byte at the candidate k bytes into the pattern. */
  lemma PrefixCandidate(c: Cursor, data: seq<byte>, eol: nat, k: nat, x: Cursor)
    requires CursorOk(c, data) && c.m.mt.state == Data
    requires LineEndAt(data, c.pos, eol) && 2 + k < |c.m.mt.pattern| && c.pos + eol + k < |data|
    requires x == MatchPrefix(EnterBoundary(c, c.pos + eol, data), data, k)
    ensures RememberLineStart(x, data) == CandidateAt(c, data, eol, k)
  {
    var q := c.pos + eol;
    var mt := c.m.mt.(boundarypos := q - c.startpos, bpos := 2 + k, state := Boundary);
    var fbb := if k > 0 then data[q] else c.m.mt.firstBoundaryByte;
    assert x == Cursor(Machine(mt.(firstBoundaryByte := fbb), c.m.ps), q + k, c.startpos, q);
  }

  /** The mismatching step itself, from the candidate k bytes into the pattern. */
  lemma MismatchAfterPrefix(c: Cursor, data: seq<byte>, eol: nat, k: nat, y: Cursor)
    requires CursorOk(c, data) && c.m.mt.state == Data
    requires LineEndAt(data, c.pos, eol) && 2 + k < |c.m.mt.pattern| && c.pos + eol + k < |data|
    requires y.m.mt == c.m.mt.(boundarypos := c.pos + eol - c.startpos, bpos := 2 + k, state := Boundary,
                               firstBoundaryByte := data[c.pos + eol])
    requires y.m.ps == c.m.ps && y.pos == c.pos + eol + k && y.startpos == c.startpos && y.drp == c.pos + eol
    requires CursorOk(y, data)
    ensures var mt := c.m.mt;
      var q := c.pos + eol;
      var r := BoundaryMismatch(y, data);
      r.m.mt == mt.(state := Data, bpos := 2 + k, boundarypos := q - c.startpos, crAside := false,
                    firstBoundaryByte := data[q]) &&
      r.drp == q
    ensures var mt := c.m.mt;
      var q := c.pos + eol;
      var ctx := Ctx(mt).(firstBoundaryByte := data[q]);
      var r := BoundaryMismatch(y, data);
      (c.m.ps.mode == LineMode ==>
         r.startpos == q && r.pos == q + k && r.m.ps == HandleData(c.m.ps, ctx, data[c.startpos..q], true)) &&
      (c.m.ps.mode == DataMode ==>
         r.startpos == c.startpos && r.pos == q &&
         r.m.ps == if mt.crAside then HandleData(c.m.ps, ctx, [CR], false) else c.m.ps)
  {
    var mt := c.m.mt;
    var ctx := Ctx(mt).(firstBoundaryByte := data[c.pos + eol]);
    assert Ctx(y.m.mt) == ctx;
    BoundaryMismatchResumes(y, data);
    var a := ProcessAside(y.m, false);
    if c.m.ps.mode == LineMode {
      assert AsidePlan(y.m.mt, LineMode, false) == [];
    } else if mt.crAside {
      assert AsidePlan(y.m.mt, DataMode, false) == [] + [Dispatch([CR], false)];
      HandleAllAppend(c.m.ps, ctx, [], Dispatch([CR], false));
      HandleDataKeepsDataMode(c.m.ps, ctx, [CR], false);
    } else {
      assert AsidePlan(y.m.mt, DataMode, false) == [];
    }
  }

  /** The line ending and k matching pattern bytes after it are k + 1 steps. */
  lemma LineEndPrefixSteps(c: Cursor, data: seq<byte>, eol: nat, k: nat, x: Cursor, n: nat)
    requires CursorOk(c, data) && c.m.mt.state == Data
    requires LineEndAt(data, c.pos, eol)
    requires c.m.mt.crAside ==> c.pos > 0 || data[0] == LF
    requires 2 + k < |c.m.mt.pattern| && c.pos + eol + k <= |data| && k < n
    requires MatchesPart(data, c.pos + eol, c.m.mt.pattern, 2, 2 + k)
    requires x == MatchPrefix(EnterBoundary(c, c.pos + eol, data), data, k)
    ensures Steps(c, data, n) == Steps(x, data, n - 1 - k)
  {
    var e := EnterBoundary(c, c.pos + eol, data);
    EnterBoundaryStarts(c, c.pos + eol, data);
    StepsEnterBoundary(c, data, eol, n);
    assert MatchesPart(data, e.pos, e.m.mt.pattern, e.m.mt.bpos, e.m.mt.bpos + k);
    PrefixSteps(e, data, k, n - 1);
  }

  /** The cursor a candidate reaches k matching bytes after a line ending. */
  lemma PrefixCursor(c: Cursor, data: seq<byte>, eol: nat, k: nat, x: Cursor)
    requires CursorOk(c, data) && c.m.mt.state == Data
    requires LineEndAt(data, c.pos, eol) && 2 + k < |c.m.mt.pattern| && c.pos + eol + k <= |data|
    requires x == MatchPrefix(EnterBoundary(c, c.pos + eol, data), data, k)
    ensures var mt := c.m.mt;
      var q := c.pos + eol;
      x == Cursor(Machine(mt.(state := Boundary, bpos := 2 + k, boundarypos := q - c.startpos,
                              firstBoundaryByte := if k > 0 then data[q] else mt.firstBoundaryByte), c.m.ps),
                  q + k, c.startpos, q)
  {
  }

  /** A delimiter candidate cut off by the end of the chunk: after a line ending at pos
      and j matching pattern bytes the chunk ends, and the bytes of the run from its
      start to the end of the chunk are stored as the one boundary piece, with
      boundarypos marking the end of the line ending within it. Nothing reaches the
      parts yet, and the next chunk resumes the match at pattern byte 2 + j. */
  lemma CandidateStored(c: Cursor, data: seq<byte>, eol: nat, j: nat)
    requires CursorOk(c, data) && c.m.mt.state == Data
    requires LineEndAt(data, c.pos, eol)
    requires c.m.mt.crAside ==> c.pos > 0 || data[0] == LF
    requires 2 + j < |c.m.mt.pattern| && c.pos + eol + j == |data|
    requires MatchesPart(data, c.pos + eol, c.m.mt.pattern, 2, 2 + j)
    ensures var mt := c.m.mt;
      var q := c.pos + eol;
      Run(c, data) == Machine(mt.(state := Boundary, bpos := 2 + j, boundarypos := q - c.startpos,
                                  firstBoundaryByte := if j > 0 then data[q] else mt.firstBoundaryByte,
                                  boundaryPieces := [data[c.startpos..]]), c.m.ps)
  {
    var x := MatchPrefix(EnterBoundary(c, c.pos + eol, data), data, j);
    var n := j + 1;
    LineEndPrefixSteps(c, data, eol, j, x, n);
    assert n - 1 - j == 0;
    assert Steps(x, data, 0) == x;
    RunSteps(c, data, n);
    PrefixCursor(c, data, eol, j, x);
    RunAtEnd(x, data);
  }

  /** A delimiter split across two chunks: the first chunk ends j bytes into the pattern
      after a line ending (CandidateStored), and the second chunk opens with the rest of
      the pattern. Then one boundary is counted and the dashes are checked next; what
      the parts receive is DelimiterAcrossChunksParts. */
  lemma DelimiterAcrossChunks(c: Cursor, d1: seq<byte>, eol: nat, j: nat, d2: seq<byte>)
    requires CursorOk(c, d1) && c.m.mt.state == Data
    requires c.m.mt.pattern[..4] == [CR, LF, DASH, DASH]
    requires LineEndAt(d1, c.pos, eol)
    requires c.m.mt.crAside ==> c.pos > 0 || d1[0] == LF
    requires eol == 1 ==> c.startpos == c.pos || d1[c.pos - 1] != CR
    requires 2 + j < |c.m.mt.pattern| && c.pos + eol + j == |d1|
    requires MatchesPart(d1, c.pos + eol, c.m.mt.pattern, 2, 2 + j)
    requires MatchesRest(d2, 0, c.m.mt.pattern, 2 + j)
    ensures var mt := c.m.mt;
      var r := Steps(Cursor(Run(c, d1), 0, 0, 0), d2, |mt.pattern| - (2 + j));
      r.pos == |mt.pattern| - (2 + j) && r.startpos == 0 && r.drp == 0 &&
      r.m.mt == mt.(state := BoundaryIsLast2, bpos := |mt.pattern|, boundarypos := c.pos + eol - c.startpos,
                    boundaryCount := mt.boundaryCount + 1, firstBoundaryByte := DASH, crAside := false)
  {
    var x := Cursor(Machine(c.m.mt.(state := Boundary, bpos := |c.m.mt.pattern| - 1,
                                  boundarypos := c.pos + eol - c.startpos, firstBoundaryByte := DASH,
                                  boundaryPieces := [d1[c.startpos..]]), c.m.ps),
                  |c.m.mt.pattern| - (2 + j) - 1, 0, 0);
    ResumeAcross(c, d1, eol, j, d2, x);
    StoredMatch(c, d1, eol, x, d2);
  }

  /** The parts after a delimiter split across two chunks: the current part received the
      content of the first chunk's run without the line ending, and was finalized, the
      same outcome as for a delimiter inside one chunk (DelimiterInChunk). */
  lemma DelimiterAcrossChunksParts(c: Cursor, d1: seq<byte>, eol: nat, j: nat, d2: seq<byte>)
    requires CursorOk(c, d1) && c.m.mt.state == Data
    requires c.m.mt.pattern[..4] == [CR, LF, DASH, DASH]
    requires LineEndAt(d1, c.pos, eol)
    requires c.m.mt.crAside ==> c.pos > 0 || d1[0] == LF
    requires eol == 1 ==> c.startpos == c.pos || d1[c.pos - 1] != CR
    requires 2 + j < |c.m.mt.pattern| && c.pos + eol + j == |d1|
    requires MatchesPart(d1, c.pos + eol, c.m.mt.pattern, 2, 2 + j)
    requires MatchesRest(d2, 0, c.m.mt.pattern, 2 + j)
    ensures var mt := c.m.mt;
      var r := Steps(Cursor(Run(c, d1), 0, 0, 0), d2, |mt.pattern| - (2 + j));
      r.m.ps == HandleBoundary(HandleData(c.m.ps, Ctx(mt).(firstBoundaryByte := DASH), d1[c.startpos..c.pos], false))
  {
    var x := Cursor(Machine(c.m.mt.(state := Boundary, bpos := |c.m.mt.pattern| - 1,
                                  boundarypos := c.pos + eol - c.startpos, firstBoundaryByte := DASH,
                                  boundaryPieces := [d1[c.startpos..]]), c.m.ps),
                  |c.m.mt.pattern| - (2 + j) - 1, 0, 0);
    ResumeAcross(c, d1, eol, j, d2, x);
    StoredParts(c, d1, eol, x, d2);
  }

  /** The second chunk completes the candidate stored by the first. */
  lemma ResumeAcross(c: Cursor, d1: seq<byte>, eol: nat, j: nat, d2: seq<byte>, x: Cursor)
    requires CursorOk(c, d1) && c.m.mt.state == Data
    requires c.m.mt.pattern[..4] == [CR, LF, DASH, DASH]
    requires LineEndAt(d1, c.pos, eol)
    requires c.m.mt.crAside ==> c.pos > 0 || d1[0] == LF
    requires eol == 1 ==> c.startpos == c.pos || d1[c.pos - 1] != CR
    requires 2 + j < |c.m.mt.pattern| && c.pos + eol + j == |d1|
    requires MatchesPart(d1, c.pos + eol, c.m.mt.pattern, 2, 2 + j)
    requires MatchesRest(d2, 0, c.m.mt.pattern, 2 + j)
    requires x == Cursor(Machine(c.m.mt.(state := Boundary, bpos := |c.m.mt.pattern| - 1,
                                  boundarypos := c.pos + eol - c.startpos, firstBoundaryByte := DASH,
                                  boundaryPieces := [d1[c.startpos..]]), c.m.ps),
                  |c.m.mt.pattern| - (2 + j) - 1, 0, 0)
    ensures CursorOk(x, d2) && x.m.mt.state == Boundary && x.pos < |d2| && x.m.mt.bpos + 1 == |x.m.mt.pattern|
    ensures Steps(Cursor(Run(c, d1), 0, 0, 0), d2, |c.m.mt.pattern| - (2 + j)) == BoundaryMatch(x, d2)
  {
    CandidateStored(c, d1, eol, j);
    var m1 := Machine(c.m.mt.(state := Boundary, bpos := 2 + j, boundarypos := c.pos + eol - c.startpos,
                                firstBoundaryByte := if j > 0 then d1[c.pos + eol] else c.m.mt.firstBoundaryByte,
                                boundaryPieces := [d1[c.startpos..]]), c.m.ps);
    StoredResumes(c, d1, eol, j, d2, m1, x);
  }

  /** The machine CandidateStored leaves meets the conditions of ResumeStored. */
  lemma StoredResumes(c: Cursor, d1: seq<byte>, eol: nat, j: nat, d2: seq<byte>, m1: Machine, x: Cursor)
    requires CursorOk(c, d1) && c.m.mt.state == Data
    requires c.m.mt.pattern[..4] == [CR, LF, DASH, DASH]
    requires LineEndAt(d1, c.pos, eol)
    requires c.m.mt.crAside ==> c.pos > 0 || d1[0] == LF
    requires eol == 1 ==> c.startpos == c.pos || d1[c.pos - 1] != CR
    requires 2 + j < |c.m.mt.pattern| && c.pos + eol + j == |d1|
    requires MatchesPart(d1, c.pos + eol, c.m.mt.pattern, 2, 2 + j)
    requires MatchesRest(d2, 0, c.m.mt.pattern, 2 + j)
    requires m1 == Machine(c.m.mt.(state := Boundary, bpos := 2 + j, boundarypos := c.pos + eol - c.startpos,
                                firstBoundaryByte := if j > 0 then d1[c.pos + eol] else c.m.mt.firstBoundaryByte,
                                boundaryPieces := [d1[c.startpos..]]), c.m.ps)
    requires x == Cursor(Machine(c.m.mt.(state := Boundary, bpos := |c.m.mt.pattern| - 1,
                                  boundarypos := c.pos + eol - c.startpos, firstBoundaryByte := DASH,
                                  boundaryPieces := [d1[c.startpos..]]), c.m.ps),
                  |c.m.mt.pattern| - (2 + j) - 1, 0, 0)
    ensures CursorOk(x, d2) && x.m.mt.state == Boundary && x.pos < |d2| && x.m.mt.bpos + 1 == |x.m.mt.pattern|
    ensures Steps(Cursor(m1, 0, 0, 0), d2, |c.m.mt.pattern| - (2 + j)) == BoundaryMatch(x, d2)
  {
    var mt := c.m.mt;
    var q := c.pos + eol;
    assert PatternByteMatches(d2[0 + (2 + j - (2 + j))], mt.pattern[2 + j]);
    if j > 0 {
      assert PatternByteMatches(d1[q + (2 - 2)], mt.pattern[2]);
    }
    assert x == StoredLast(m1, d2);
    ResumeStored(m1, d2, x);
  }

  /** A stored candidate resumed at the start of a chunk that holds the rest of the
      pattern: it runs up to the complete match. */
  lemma ResumeStored(m: Machine, data: seq<byte>, x: Cursor)
    requires Valid(m) && m.mt.state == Boundary && m.mt.pattern[2] == DASH
    requires MatchesRest(data, 0, m.mt.pattern, m.mt.bpos)
    requires m.mt.bpos > 2 ==> m.mt.firstBoundaryByte == DASH
    requires x == StoredLast(m, data)
    ensures CursorOk(x, data) && x.m.mt.state == Boundary && x.pos < |data| && x.m.mt.bpos + 1 == |x.m.mt.pattern|
    ensures Steps(Cursor(m, 0, 0, 0), data, |m.mt.pattern| - m.mt.bpos) == BoundaryMatch(x, data)
  {
    ResumedMatchLast(m, data);
    ResumedMatchSteps(m, data);
  }

  /** The cursor at the last pattern byte, a stored candidate resumed at the start of
      the next chunk; the first byte of the candidate line is now known to be a dash. */
  function StoredLast(m: Machine, data: seq<byte>): (r: Cursor)
    requires Valid(m) && m.mt.state == Boundary && |m.mt.pattern| - m.mt.bpos <= |data|
  {
    Cursor(Machine(m.mt.(bpos := |m.mt.pattern| - 1, firstBoundaryByte := DASH), m.ps),
           |m.mt.pattern| - m.mt.bpos - 1, 0, 0)
  }

  /** The rest of the pattern at the start of a chunk completes a stored candidate. */
  lemma ResumedMatchSteps(m: Machine, data: seq<byte>)
    requires Valid(m) && m.mt.state == Boundary
    requires MatchesRest(data, 0, m.mt.pattern, m.mt.bpos)
    ensures var c := Cursor(m, 0, 0, 0);
      Steps(c, data, |m.mt.pattern| - m.mt.bpos) == BoundaryMatch(MatchLast(c, data), data)
  {
    var c := Cursor(m, 0, 0, 0);
    var p := m.mt.pattern;
    var n := |p| - m.mt.bpos;
    var x := MatchLast(c, data);
    assert Steps(c, data, n) == Steps(x, data, 1) by {
      assert PatternByteMatches(data[0 + (m.mt.bpos - m.mt.bpos)], p[m.mt.bpos]);
      MatchSteps(c, data, n);
    }
    assert x.pos == 0 + ((|p| - 1) - m.mt.bpos) && x.m.mt.bpos == |p| - 1 && x.m.mt.pattern == p;
    assert PatternByteMatches(data[0 + ((|p| - 1) - m.mt.bpos)], p[|p| - 1]);
    LastByteAfterLineStart(x, data);
  }

  /** Resumed at the start of the chunk, the candidate line starts with a dash. */
  lemma ResumedMatchLast(m: Machine, data: seq<byte>)
    requires Valid(m) && m.mt.state == Boundary && m.mt.pattern[2] == DASH
    requires MatchesRest(data, 0, m.mt.pattern, m.mt.bpos)
    requires m.mt.bpos > 2 ==> m.mt.firstBoundaryByte == DASH
    ensures MatchLast(Cursor(m, 0, 0, 0), data) == StoredLast(m, data)
  {
    assert PatternByteMatches(data[0 + (m.mt.bpos - m.mt.bpos)], m.mt.pattern[m.mt.bpos]);
  }

  /** The last pattern byte, the first byte of the candidate line already remembered. */
  lemma LastByteAfterLineStart(x: Cursor, data: seq<byte>)
    requires CursorOk(x, data) && x.m.mt.state == Boundary && x.pos < |data|
    requires x.m.mt.bpos + 1 == |x.m.mt.pattern|
    requires PatternByteMatches(data[x.pos], x.m.mt.pattern[x.m.mt.bpos])
    ensures Steps(x, data, 1) == BoundaryMatch(x, data)
  {
    StepsMatchLast(x, data);
    assert RememberLineStart(x, data) == x;
  }

  /** A match completed with one stored piece delivers the trimmed start of that piece. */
  lemma PartsAtMatchStored(m: Machine, content: seq<byte>, ctx: Context)
    requires PartsOk(m.ps) && AsideOk(m.mt) && |m.mt.boundaryPieces| == 1
    requires TrimLineEnd(m.mt.boundaryPieces[0][..m.mt.boundarypos]) == content && Ctx(m.mt) == ctx
    ensures PartsAtMatch(m, []) == HandleBoundary(HandleData(m.ps, ctx, content, false))
  {
    var d := Dispatch(content, false);
    assert AsidePlan(m.mt, m.ps.mode, true) == [] + [d];
    HandleAllAppend(m.ps, ctx, [], d);
    assert TrimLineEnd([]) == [];
  }

  /** The completed match of a stored candidate, resumed at the start of the chunk. */
  lemma StoredMatchDelivers(x: Cursor, data: seq<byte>, content: seq<byte>, ctx: Context)
    requires CursorOk(x, data) && x.m.mt.state == Boundary && x.pos < |data| && x.m.mt.bpos + 1 == |x.m.mt.pattern|
    requires x.startpos == 0 && x.drp == 0 && |x.m.mt.boundaryPieces| == 1
    requires TrimLineEnd(x.m.mt.boundaryPieces[0][..x.m.mt.boundarypos]) == content && Ctx(x.m.mt) == ctx
    ensures BoundaryMatch(x, data).m.ps == HandleBoundary(HandleData(x.m.ps, ctx, content, false))
  {
    assert data[x.startpos..x.drp] == [];
    PartsAtMatchStored(x.m, content, ctx);
  }

  /** The completed match of a candidate stored in the previous chunk. */
  lemma StoredMatch(c: Cursor, d1: seq<byte>, eol: nat, x: Cursor, d2: seq<byte>)
    requires CursorOk(c, d1) && c.m.mt.state == Data
    requires LineEndAt(d1, c.pos, eol)
    requires eol == 1 ==> c.startpos == c.pos || d1[c.pos - 1] != CR
    requires CursorOk(x, d2) && x.m.mt.state == Boundary && x.pos < |d2| && x.m.mt.bpos + 1 == |x.m.mt.pattern|
    requires x.m == Machine(c.m.mt.(state := Boundary, bpos := |c.m.mt.pattern| - 1,
                                    boundarypos := c.pos + eol - c.startpos, firstBoundaryByte := DASH,
                                    boundaryPieces := [d1[c.startpos..]]), c.m.ps)
    requires x.startpos == 0 && x.drp == 0
    ensures var mt := c.m.mt;
      var r := BoundaryMatch(x, d2);
      r.pos == x.pos + 1 && r.startpos == 0 && r.drp == 0 &&
      r.m.mt == mt.(state := BoundaryIsLast2, bpos := |mt.pattern|, boundarypos := c.pos + eol - c.startpos,
                    boundaryCount := mt.boundaryCount + 1, firstBoundaryByte := DASH, crAside := false)
  {
  }

  /** The parts after the completed match of a candidate stored in the previous chunk. */
  lemma StoredParts(c: Cursor, d1: seq<byte>, eol: nat, x: Cursor, d2: seq<byte>)
    requires CursorOk(c, d1) && LineEndAt(d1, c.pos, eol)
    requires eol == 1 ==> c.startpos == c.pos || d1[c.pos - 1] != CR
    requires CursorOk(x, d2) && x.m.mt.state == Boundary && x.pos < |d2| && x.m.mt.bpos + 1 == |x.m.mt.pattern|
    requires x.startpos == 0 && x.drp == 0 && x.m.ps == c.m.ps
    requires x.m.mt.boundaryPieces == [d1[c.startpos..]] && x.m.mt.boundarypos == c.pos + eol - c.startpos
    requires Ctx(x.m.mt) == Ctx(c.m.mt).(firstBoundaryByte := DASH)
    ensures BoundaryMatch(x, d2).m.ps
         == HandleBoundary(HandleData(c.m.ps, Ctx(c.m.mt).(firstBoundaryByte := DASH), d1[c.startpos..c.pos], false))
  {
    StoredContent(d1, c.startpos, c.pos, eol);
    StoredMatchDelivers(x, d2, d1[c.startpos..c.pos], Ctx(x.m.mt));
  }

  /** The stored piece up to the end of its line ending, trimmed, is the content. */
  lemma StoredContent(d1: seq<byte>, startpos: nat, pos: nat, eol: nat)
    requires startpos <= pos && LineEndAt(d1, pos, eol)
    requires eol == 1 ==> startpos == pos || d1[pos - 1] != CR
    ensures TrimLineEnd(d1[startpos..][..pos + eol - startpos]) == d1[startpos..pos]
  {
    assert d1[startpos..][..pos + eol - startpos] == d1[startpos..pos + eol];
    TrimBeforeLineEnd(d1, startpos, pos, eol);
  }

  // ---------------------------------------------------------------------------
  // After a delimiter (htp_mpartp_parse, the BoundaryIsLast2, BoundaryIsLast1 and
  // BoundaryEatLF states)

  /** Two dashes right after the delimiter mark it as the last one; the rest of that
      line is skipped next. */
  lemma CloseDelimiter(c: Cursor, data: seq<byte>)
    requires CursorOk(c, data) && c.m.mt.state == BoundaryIsLast2
    requires c.pos + 1 < |data| && data[c.pos] == DASH && data[c.pos + 1] == DASH
    ensures Steps(c, data, 2) == c.(m := Machine(c.m.mt.(seenLastBoundary := true, state := BoundaryEatLF), c.m.ps),
                                    pos := c.pos + 2)
  {
    var s := Step(c, data);
    assert s == c.(m := Machine(c.m.mt.(state := BoundaryIsLast1), c.m.ps), pos := c.pos + 1);
    StepsUnfold(c, data, 2);
    StepsUnfold(s, data, 1);
  }

  /** Anything but a dash after the delimiter, or after its first dash, leaves the
      last-boundary flag alone and goes on to skip the line, without consuming the byte. */
  lemma NoCloseDelimiter(c: Cursor, data: seq<byte>)
    requires CursorOk(c, data) && (c.m.mt.state == BoundaryIsLast2 || c.m.mt.state == BoundaryIsLast1)
    requires c.pos < |data| && data[c.pos] != DASH
    ensures Steps(c, data, 1) == c.(m := Machine(c.m.mt.(state := BoundaryEatLF), c.m.ps))
  {
    StepsUnfold(c, data, 1);
  }

  /** No LF among data[from..to]. */
  predicate NoLF(data: seq<byte>, from: nat, to: nat)
    requires from <= to <= |data|
  {
    forall k :: from <= k < to ==> data[k] != LF
  }

  /** Skipping the rest of the delimiter line: every byte up to and including the next
      LF is dropped, and data resumes just after that LF; the parts are not touched. */
  lemma {:induction false} EatLine(c: Cursor, data: seq<byte>, lf: nat)
    requires CursorOk(c, data) && c.m.mt.state == BoundaryEatLF
    requires c.pos <= lf < |data| && data[lf] == LF && NoLF(data, c.pos, lf)
    ensures Steps(c, data, lf - c.pos + 1)
         == c.(m := Machine(c.m.mt.(state := Data), c.m.ps), pos := lf + 1, startpos := lf + 1)
    decreases lf - c.pos
  {
    var s := Step(c, data);
    StepsUnfold(c, data, lf - c.pos + 1);
    if c.pos < lf {
      assert data[c.pos] != LF;
      assert s == c.(pos := c.pos + 1);
      EatLine(s, data, lf);
    }
  }

  /** Without an LF in the rest of the chunk, the rest of the chunk is dropped. */
  lemma {:induction false} EatToEnd(c: Cursor, data: seq<byte>)
    requires CursorOk(c, data) && c.m.mt.state == BoundaryEatLF && NoLF(data, c.pos, |data|)
    ensures Run(c, data) == c.m
    decreases |data| - c.pos
  {
    if c.pos < |data| {
      var s := Step(c, data);
      assert data[c.pos] != LF;
      assert s == c.(pos := c.pos + 1);
      RunStep(c, data);
      EatToEnd(s, data);
    }
  }

  // ---------------------------------------------------------------------------
  // Content in the Data state, and the CR withheld at the end of a chunk

  /** No CR and no LF among data[from..to]. */
  predicate PlainContent(data: seq<byte>, from: nat, to: nat)
    requires from <= to <= |data|
  {
    forall k :: from <= k < to ==> data[k] != LF && data[k] != CR
  }

  /** Whether the rest of the chunk from pos ends in a CR. */
  function EndsInCR(data: seq<byte>, pos: nat): bool {
    pos < |data| && data[|data| - 1] == CR
  }

  /** Content with no line ending runs to the end of the chunk in the Data state and is
      dispatched, as data, in one piece; a CR that ends the chunk is withheld, because
      the LF of a CR LF may open the next chunk. */
  lemma {:induction false} ContentRun(c: Cursor, data: seq<byte>)
    requires CursorOk(c, data) && c.m.mt.state == Data && !c.m.mt.crAside
    requires PlainContent(data, c.pos, |data| - (if EndsInCR(data, c.pos) then 1 else 0))
    ensures var cut := if EndsInCR(data, c.pos) then 1 else 0;
      Run(c, data) == Machine(c.m.mt.(crAside := EndsInCR(data, c.pos)),
                              HandleData(c.m.ps, Ctx(c.m.mt), data[c.startpos..|data| - cut], false))
    decreases |data| - c.pos
  {
    if c.pos < |data| {
      var cr := data[c.pos] == CR;
      var s := Step(c, data);
      assert cr ==> c.pos + 1 == |data|;
      assert s == TakeByte(c, cr, data);
      RunStep(c, data);
      if cr {
        RunAtEnd(s, data);
        assert Ctx(s.m.mt) == Ctx(c.m.mt);
      } else {
        assert EndsInCR(data, s.pos) == EndsInCR(data, c.pos);
        ContentRun(s, data);
      }
    }
  }

  /** A chunk of content without line endings, in the Data state, reaches the current
      part in one dispatch, without a CR it ends with. */
  lemma ContentChunk(m: Machine, data: seq<byte>)
    requires Valid(m) && m.mt.state == Data && !m.mt.crAside
    requires PlainContent(data, 0, |data| - (if EndsInCR(data, 0) then 1 else 0))
    ensures var cut := if EndsInCR(data, 0) then 1 else 0;
      ParseChunk(m, data) == Machine(m.mt.(crAside := EndsInCR(data, 0)),
                                     HandleData(m.ps, Ctx(m.mt), data[..|data| - cut], false))
  {
    ContentRun(Cursor(m, 0, 0, 0), data);
    assert data[0..] == data;
  }

  /** The CR withheld at the end of a chunk reaches the current part first when the
      next chunk does not open with LF; the content of that chunk follows. */
  lemma WithheldCRDelivered(m: Machine, data: seq<byte>)
    requires Valid(m) && m.mt.state == Data && m.mt.crAside
    requires 0 < |data| && data[0] != LF
    requires PlainContent(data, 0, |data| - (if EndsInCR(data, 0) then 1 else 0))
    ensures var cut := if EndsInCR(data, 0) then 1 else 0;
      ParseChunk(m, data) == Machine(m.mt.(crAside := EndsInCR(data, 0)),
                                     HandleData(HandleData(m.ps, Ctx(m.mt), [CR], false), Ctx(m.mt),
                                                data[..|data| - cut], false))
  {
    var c := Cursor(m, 0, 0, 0);
    var d := DeliverWithheldCR(c, data);
    assert Step(c, data) == d;
    RunStep(c, data);
    ContentRun(d, data);
    assert data[0..] == data;
    assert d.m.mt.(crAside := EndsInCR(data, 0)) == m.mt.(crAside := EndsInCR(data, 0));
  }

  // ---------------------------------------------------------------------------
  // Set-aside bytes (htp_martp_process_aside)

  /** The bytes of a sequence of dispatches, in order. */
  function PlanBytes(ds: seq<Dispatch>): (r: seq<byte>)
    decreases |ds|
  {
    if |ds| == 0 then [] else PlanBytes(ds[..|ds| - 1]) + ds[|ds| - 1].bytes
  }

  lemma {:induction false} PlanBytesSplit(a: seq<Dispatch>, b: seq<Dispatch>)
    ensures PlanBytes(a + b) == PlanBytes(a) + PlanBytes(b)
    decreases |b|
  {
    if |b| == 0 {
      assert a + b == a;
    } else {
      var b' := b[..|b| - 1];
      var last := b[|b| - 1];
      assert a + b == (a + b') + [last];
      PlanBytesOneMore(a + b', last);
      PlanBytesSplit(a, b');
      PlanBytesOneMore(b', last);
      assert b' + [last] == b;
    }
  }

  lemma PlanBytesOneMore(ds: seq<Dispatch>, d: Dispatch)
    ensures PlanBytes(ds + [d]) == PlanBytes(ds) + d.bytes
  {
    assert (ds + [d])[..|ds|] == ds;
  }

  /** Pieces dispatched as data deliver exactly their joined bytes, none as a line. */
  lemma {:induction false} DataPlanDelivers(pieces: seq<seq<byte>>)
    ensures PlanBytes(DataPlan(pieces)) == Concat(pieces)
    ensures forall d :: d in DataPlan(pieces) ==> !d.isLine
    ensures |PlanBytes(DataPlan(pieces))| == TotalLength(pieces)
    decreases |pieces|
  {
    ConcatLength(pieces);
    if |pieces| > 0 {
      var pre := pieces[..|pieces| - 1];
      var last := pieces[|pieces| - 1];
      DataPlanDelivers(pre);
      assert DataPlan(pieces) == DataPlan(pre) + [Dispatch(last, false)];
      PlanBytesOneMore(DataPlan(pre), Dispatch(last, false));
    }
  }

  /** The first piece and the rest, joined. */
  lemma ConcatFirst(pieces: seq<seq<byte>>)
    requires |pieces| > 0
    ensures Concat(pieces) == pieces[0] + Concat(pieces[1..])
  {
    assert pieces == [pieces[0]] + pieces[1..];
    ConcatSplit([pieces[0]], pieces[1..]);
    ConcatSingle(pieces[0]);
  }

  /** After a mismatch in data mode nothing is lost: the withheld CR and then every
      stored byte are delivered in order, none of them as a line. */
  lemma AsideDeliversData(mt: Matcher)
    requires AsideOk(mt)
    ensures PlanBytes(AsidePlan(mt, DataMode, false))
         == (if mt.crAside then [CR] else []) + Concat(mt.boundaryPieces)
    ensures forall d :: d in AsidePlan(mt, DataMode, false) ==> !d.isLine
  {
    var pieces := mt.boundaryPieces;
    var cr: seq<Dispatch> := if mt.crAside then [Dispatch([CR], false)] else [];
    DataPlanDelivers(pieces);
    PlanBytesSplit(cr, DataPlan(pieces));
    PlanBytesOneMore([], Dispatch([CR], false));
    assert [] + [Dispatch([CR], false)] == [Dispatch([CR], false)];
    assert AsidePlan(mt, DataMode, false) == cr + DataPlan(pieces);
  }

  /** A line dispatch split at `k`, followed by further dispatches, delivers the whole
      piece and then the rest. */
  lemma PlanBytesLineFirst(b: seq<byte>, k: nat, rest: seq<Dispatch>)
    requires k <= |b|
    ensures PlanBytes([Dispatch(b[..k], true), Dispatch(b[k..], false)] + rest) == b + PlanBytes(rest)
  {
    var line := Dispatch(b[..k], true);
    var tail := Dispatch(b[k..], false);
    PlanBytesSplit([line, tail], rest);
    PlanBytesOneMore([], line);
    assert [] + [line] == [line];
    PlanBytesOneMore([line], tail);
    assert [line] + [tail] == [line, tail];
    assert b[..k] + b[k..] == b;
  }

  /** After a mismatch in line mode every stored byte is delivered in order; only the
      candidate line, the first boundarypos bytes, is delivered as a line, and the
      withheld CR is dropped as part of that line's ending. */
  lemma AsideDeliversLine(mt: Matcher)
    requires AsideOk(mt)
    ensures PlanBytes(AsidePlan(mt, LineMode, false)) == Concat(mt.boundaryPieces)
    ensures |mt.boundaryPieces| > 0 ==>
      AsidePlan(mt, LineMode, false)[0] == Dispatch(mt.boundaryPieces[0][..mt.boundarypos], true) &&
      forall d :: d in AsidePlan(mt, LineMode, false)[1..] ==> !d.isLine
  {
    var pieces := mt.boundaryPieces;
    if |pieces| > 0 {
      var b := pieces[0];
      var rest := DataPlan(pieces[1..]);
      var plan := AsidePlan(mt, LineMode, false);
      assert plan == [Dispatch(b[..mt.boundarypos], true), Dispatch(b[mt.boundarypos..], false)] + rest;
      assert plan[1..] == [Dispatch(b[mt.boundarypos..], false)] + rest;
      DataPlanDelivers(pieces[1..]);
      PlanBytesLineFirst(b, mt.boundarypos, rest);
      ConcatFirst(pieces);
    }
  }

  /** After a match only the content before the candidate line's ending is delivered. */
  lemma AsideDeliversMatch(mt: Matcher, mode: Mode)
    requires AsideOk(mt)
    ensures PlanBytes(AsidePlan(mt, mode, true))
         == if |mt.boundaryPieces| == 0 then [] else TrimLineEnd(mt.boundaryPieces[0][..mt.boundarypos])
  {
    if |mt.boundaryPieces| > 0 {
      var d := Dispatch(TrimLineEnd(mt.boundaryPieces[0][..mt.boundarypos]), false);
      assert AsidePlan(mt, mode, true) == [d];
      PlanBytesOneMore([], d);
      assert [] + [d] == [d];
    }
  }
}

# LibHTP multipart/form-data parser, modelled in Dafny

LibHTP's multipart parser (`htp_multipart.c`) splits a `multipart/form-data` request body
into parts. The body arrives in chunks of any size. Parts are separated by delimiter lines:
CR LF, `--`, then the boundary token (section 5.1.1 of RFC 2046). A trailing `--` marks the
close delimiter.

The parser works byte by byte with a five-state machine: `Data`, `Boundary`,
`BoundaryIsLast2`, `BoundaryIsLast1` and `BoundaryEatLF`.

- **Withheld bytes.** While a delimiter candidate straddles chunks, its bytes are set aside in
  `boundary_pieces`. A CR that ends a chunk is withheld in `cr_aside`.
- **Reconciliation.** When the candidate is resolved, `htp_martp_process_aside` re-attributes
  the set-aside bytes.
- **Content.** A part's content goes to it through `handle_data`. There it is assembled into
  header lines in line mode, with header folding (a next line starting with SP or HT continues
  the header). In data mode it is kept as raw pieces.
- **Part boundaries.** A delimiter finalizes the current part through `handle_boundary`.

The project has six modules:

- `Bytes` (bytes.dfy): bytes, ASCII lowercasing, and joining byte pieces.
- `PartModel` (part_model.dfy): the part side as values. This covers the part list, the current
  part, the mode, the pending pieces, and the callbacks `htp_mpart_part_create`,
  `htp_mpart_part_handle_data`, `htp_mpart_part_finalize_data`, `htp_mpartp_handle_data` and
  `htp_mpartp_handle_boundary`. Every header line that is surfaced is recorded in a log, `lines`.
- `ParseModel` (parse_model.dfy): the chunk state machine as values.
  - `Matcher` holds the matcher's fields.
  - `Cursor` holds `pos`, `startpos` and `data_return_pos`.
  - `Step` takes one step; `Run` and `ParseChunk` run a whole chunk.
  - Also here: the pattern built by `htp_mpartp_create`, the dispatch plan of
    `htp_martp_process_aside`, and `htp_mpartp_finalize`.
- `MultipartParser` (multipart_parser.dfy): the parser as a class, with the source's fields.
  - Each method mirrors a C function, with the same loops and in-place updates.
  - `Parse` keeps the nested `while (pos < len)` loops. A `reenter` flag stands for
    `goto STATE_SWITCH`.
  - Each method is proved to leave the object in the state that the value model computes from
    the old state. For example, `Parse` ensures `Snap() == ParseChunk(old(Snap()), data)`.
- `ParseProperties` (parse_props.dfy): what steps, runs and chunks do:
  - finalized parts are never touched again, and the counters only move forward;
  - how a delimiter inside a chunk, or split across two chunks, is recognised and what it
    does to the parts;
  - what a candidate rejected inside a chunk does, per mode, and what a candidate cut off by
    the chunk end stores;
  - the close delimiter and the skipping of the rest of the delimiter line;
  - how content and a withheld CR reach the part;
  - what each reconciliation delivers.
- `Findings` (findings.dfy): five places where the code as written departs from its evident
  intent. Each has a member that follows the code as written, a lemma that shows the
  departure, and the property of the corrected behaviour. The rest of the model uses the
  corrected behaviour.

## Model

| member | source | states |
|---|---|---|
| Bytes.AsciiLower | htp/htp_multipart.c:267-270 | an ASCII upper-case letter maps to its lower-case letter and every other byte is unchanged (the `tolower` applied to each boundary byte) |
| Bytes.ConcatLength | htp/htp_multipart.c:59-60 | the string built from a list of pieces is exactly as long as the pieces together |
| Bytes.LowerAll | htp/htp_multipart.c:266-270 | the lowercased copy of the boundary has its length and lowercases each byte at its position |
| PartModel.LineContentLengthSpec | htp/htp_multipart.c:98-104 | ignoring a line's terminator drops exactly nothing, LF, CR or CR LF. LF is dropped alone only when no CR precedes it. A lone CR is dropped only from a line longer than one byte. Nothing is dropped only when the line does not end in LF (nor, beyond one byte, in CR) |
| PartModel.KeepContentSpec | htp/htp_multipart.c:90-155 | only the mode, the pending pieces, the fold flag and the line log change. A complete line in line mode: an empty line with nothing pending switches to data mode; a line before SP/HT is appended and sets the fold flag; any other line is surfaced joined to the pending pieces, which are cleared. A fragment in line mode is appended as is. In data mode the bytes are appended unless the part is a file |
| PartModel.PartHandleDataSpec | htp/htp_multipart.c:84-88 | on every path the current part's length grows by exactly the number of bytes and no other part changes. A preamble or epilogue changes nothing else. Any other part keeps content as KeepContent does |
| PartModel.OpenPart | htp/htp_multipart.c:172-189 | creating a part appends exactly one part (of the given kind, length 0, no value) and makes it current. The pending pieces and fold flag are cleared. A preamble or epilogue forces data mode; an unset kind leaves the mode as it was |
| PartModel.HandleData | htp/htp_multipart.c:168-196 | a zero-length dispatch changes nothing; a current part stays current; the part invariants are kept |
| PartModel.HandleDataSpec | htp/htp_multipart.c:168-196 | finalized parts are kept and non-empty data always leaves a current part. With no current part exactly one part is created: Preamble before any boundary, Epilogue after the last, otherwise unset, holding exactly the data's length. A preamble or epilogue starts in data mode with nothing pending. With a current part only its length changes in the part list |
| PartModel.HandleDataKeepsDataMode | htp/htp_multipart.c:77-196 | data mode stays on through any dispatch: only an empty line in line mode switches the mode (to data), and a new part keeps the mode or forces data mode |
| PartModel.HandleAllSpec | htp/htp_multipart.c:374-398 | a sequence of dispatches, as the reconciliation loops perform them, keeps every finalized part and opens at most one part |
| PartModel.FinalizeDataSpec | htp/htp_multipart.c:55-67 | finalizing changes only the current part's value and the pending pieces. A preamble, an epilogue or a part with nothing pending is unchanged. Otherwise the value is the concatenation of the pending pieces and the pieces are cleared |
| PartModel.HandleBoundarySpec | htp/htp_multipart.c:204-219 | afterwards there is no current part, nothing is pending, the mode is line mode and every part is finalized. The part that was current has its value set as FinalizeData says; with no current part nothing changes |
| ParseModel.Pattern | htp/htp_multipart.c:252-270 | the pattern is \|boundary\| + 4 bytes long: CR LF `--`, then the boundary lowercased byte by byte |
| ParseModel.Initial | htp/htp_multipart.c:227-281 | the new parser expects the dashes of a first delimiter at once (state Boundary with bpos 2, just after the pattern's CR LF). It has counted no boundary, has not seen the last one, withholds no CR and has nothing set aside. It is in line mode with no pending part pieces, no parts and no current part, and satisfies the invariant |
| ParseModel.TrimLineEnd | htp/htp_multipart.c:353-362 | removing a line ending drops a final CR LF or a final LF not preceded by CR; otherwise, when the input does not end in LF, nothing is removed |
| ParseModel.DataPlan | htp/htp_multipart.c:393-399 | one data dispatch per stored piece |
| ParseModel.ProcessAside | htp/htp_multipart.c:316-406 | after reconciliation no boundary piece and no withheld CR remain. The part invariants are kept, and an open part stays current |
| ParseModel.Finalize | htp/htp_multipart.c:413-423 | finalizing drops the stored pieces and keeps the current part and the number of parts |
| ParseModel.FinalizeSpec | htp/htp_multipart.c:413-423 | finalized parts are kept. With no open part only the stored pieces are dropped. With an open part the withheld CR and the stored pieces are gone and nothing stays pending |
| ParseModel.EnterBoundary | htp/htp_multipart.c:477-499 | after a line ending the cursor stays consistent and the progress measure decreases |
| ParseModel.EnterBoundaryStarts | htp/htp_multipart.c:477-499 | a line ending starts delimiter testing: state Boundary at bpos 2, both the position and data_return_pos just after the line ending, the pattern, the parts and the withheld CR unchanged |
| ParseModel.TakeByte | htp/htp_multipart.c:464-504 | taking a content byte keeps the cursor consistent and decreases the progress measure |
| ParseModel.DeliverWithheldCR | htp/htp_multipart.c:453-456 | delivering the withheld CR clears the flag and decreases the progress measure |
| ParseModel.DataStep | htp/htp_multipart.c:453-504 | every Data step keeps the cursor consistent and decreases the progress measure, so the Data loop cannot stall |
| ParseModel.BoundaryMismatch | htp/htp_multipart.c:524-542 | after a mismatch the cursor stays consistent and the progress measure decreases |
| ParseModel.BoundaryMismatchResumes | htp/htp_multipart.c:524-542 | a mismatch returns to Data with no boundary pieces and no withheld CR, after reconciling as for no match; the boundary count is unchanged. In line mode the run from startpos up to data_return_pos goes to the part as one line and startpos moves to data_return_pos, the position staying at the mismatching byte; in data mode startpos is kept and scanning resumes at data_return_pos |
| ParseModel.PartsAtMatch | htp/htp_multipart.c:552-562 | after a match the part invariants hold and there is no current part |
| ParseModel.MatchedMatcher | htp/htp_multipart.c:549-565 | the matcher after a complete match is consistent |
| ParseModel.BoundaryMatch | htp/htp_multipart.c:545-566 | a complete match keeps the cursor consistent and decreases the progress measure |
| ParseModel.RememberLineStart | htp/htp_multipart.c:517-521 | the byte at the position is recorded as the first byte of the candidate line exactly when bpos is 2, the first pattern byte after CR LF; otherwise the recorded byte is kept. Nothing else changes |
| ParseModel.MatchByte | htp/htp_multipart.c:545-549 | a matched byte keeps the cursor consistent and decreases the progress measure |
| ParseModel.BoundaryStep | htp/htp_multipart.c:514-568 | every Boundary step keeps the cursor consistent and decreases the progress measure |
| ParseModel.TailStep | htp/htp_multipart.c:575-613 | every step after a match keeps the cursor consistent and decreases the progress measure |
| ParseModel.Step | htp/htp_multipart.c:447-614 | any step keeps the cursor consistent and decreases the progress measure |
| ParseModel.Finish | htp/htp_multipart.c:507-571 | the end-of-chunk flush (the Data run without a withheld CR, or the candidate's bytes stored) leaves a valid parser; what it stores for a candidate is ParseProperties.CandidateStored, what it delivers for content ParseProperties.ContentRun |
| ParseModel.FinishQuiet | htp/htp_multipart.c:505-510 | at a chunk end with no pending run or candidate, finishing changes nothing |
| ParseModel.Run | htp/htp_multipart.c:443-615 | a run to the end of the chunk, stepping only while bytes remain, leaves a valid parser |
| ParseModel.ParseChunk | htp/htp_multipart.c:434-618 | a chunk takes a valid parser to a valid parser |
| ParseModel.RunAtEnd | htp/htp_multipart.c:443 | at the end of the chunk the run only finishes it |
| ParseModel.RunStep | htp/htp_multipart.c:443-447 | inside the chunk the run takes one step |
| ParseModel.RunTail | htp/htp_multipart.c:575-613 | inside the chunk, in a state after a match, the run takes one tail step |
| MultipartParser.Parser.constructor | htp/htp_multipart.c:227-281 | the pattern is built by a loop over a buffer of \|boundary\| + 4 bytes; the new object is the initial parser |
| MultipartParser.Parser.CreatePart | htp/htp_multipart.c:23-32 | a new part of unset kind; the pending pieces and fold flag are cleared |
| MultipartParser.Parser.PartHandleData | htp/htp_multipart.c:77-158 | the fields afterwards are PartModel.PartHandleData of the fields before |
| MultipartParser.Parser.KeepContent | htp/htp_multipart.c:90-155 | the fields afterwards are PartModel.KeepContent of the fields before |
| MultipartParser.Parser.IgnoreLineEnding | htp/htp_multipart.c:98-104 | the length computed as the source does is LineContentLength |
| MultipartParser.Parser.KeepLine | htp/htp_multipart.c:95-144 | a complete line in line mode updates the fields as KeepContent says |
| MultipartParser.Parser.PartFinalizeData | htp/htp_multipart.c:55-67 | the fields afterwards are FinalizeData of the fields before |
| MultipartParser.Parser.HandleData | htp/htp_multipart.c:168-196 | the fields afterwards are PartModel.HandleData of the fields before; the matcher is unchanged |
| MultipartParser.Parser.HandleBoundary | htp/htp_multipart.c:204-219 | the fields afterwards are PartModel.HandleBoundary of the fields before |
| MultipartParser.Parser.ProcessAside | htp/htp_multipart.c:316-406 | the object afterwards is ParseModel.ProcessAside of the object before |
| MultipartParser.Parser.AsideSplit | htp/htp_multipart.c:325-383 | after a match or in line mode the withheld CR and the stored pieces are dropped from the matcher, and the parts are those of the dispatch plan |
| MultipartParser.Parser.SplitAtMatch | htp/htp_multipart.c:348-363 | after a match the first piece up to boundarypos, its line ending removed, is the only dispatch |
| MultipartParser.Parser.SplitLine | htp/htp_multipart.c:345-379 | in line mode the first piece is split into a line and data, and the later pieces follow as data |
| MultipartParser.Parser.AsideAsData | htp/htp_multipart.c:384-402 | in data mode the withheld CR, then every piece, are dispatched as data |
| MultipartParser.Parser.DispatchPieces | htp/htp_multipart.c:394-399 | the loop over stored pieces dispatches each one as data, in order |
| MultipartParser.Parser.DispatchOne | htp/htp_multipart.c:398 | one dispatch extends the plan performed so far by one entry |
| MultipartParser.Parser.TrimmedLength | htp/htp_multipart.c:351-360 | the trimmed length, computed as the source does, gives TrimLineEnd of the prefix |
| MultipartParser.Parser.Parse | htp/htp_multipart.c:434-618 | one chunk takes the object to ParseChunk of its old state, and the invariant is kept |
| MultipartParser.Parser.DataCase | htp/htp_multipart.c:449-510 | the Data loop either finishes the chunk in the state the run computes, or leaves for Boundary with the run's remainder unchanged and progress made |
| MultipartParser.Parser.DataByte | htp/htp_multipart.c:453-504 | one Data step is DataStep, and it consumes a byte or clears the withheld CR |
| MultipartParser.Parser.DeliverCR | htp/htp_multipart.c:453-456 | the withheld CR is dispatched as one data byte and the flag is cleared |
| MultipartParser.Parser.StartCandidate | htp/htp_multipart.c:477-499 | a line ending starts a candidate as EnterBoundary says |
| MultipartParser.Parser.TakeContentByte | htp/htp_multipart.c:464-504 | a content byte is taken as TakeByte says |
| MultipartParser.Parser.FlushData | htp/htp_multipart.c:507-508 | the end-of-chunk Data flush is Finish |
| MultipartParser.Parser.BoundaryCase | htp/htp_multipart.c:512-573 | the Boundary loop either stores the candidate at the chunk end in the state the run computes, or leaves Boundary with progress made |
| MultipartParser.Parser.BoundaryByte | htp/htp_multipart.c:514-567 | one Boundary step is BoundaryStep |
| MultipartParser.Parser.RememberFirstByte | htp/htp_multipart.c:517-521 | the first byte of the candidate line is recorded as RememberLineStart says |
| MultipartParser.Parser.MatchNextByte | htp/htp_multipart.c:545-549 | a matched byte is MatchByte |
| MultipartParser.Parser.StoreCandidate | htp/htp_multipart.c:570-571 | the candidate's bytes of this chunk are stored as Finish says |
| MultipartParser.Parser.Mismatch | htp/htp_multipart.c:524-542 | a mismatch is BoundaryMismatch and returns to Data |
| MultipartParser.Parser.MatchDelimiter | htp/htp_multipart.c:545-566 | a complete match is BoundaryMatch and enters BoundaryIsLast2 |
| MultipartParser.Parser.MatchContent | htp/htp_multipart.c:552-562 | the parts at a match are PartsAtMatch of the old state; only the withheld CR and the pieces leave the matcher |
| MultipartParser.Parser.TailCase | htp/htp_multipart.c:575-613 | a step after a match is TailStep, keeps the run's remainder and makes progress |
| MultipartParser.Parser.Finalize | htp/htp_multipart.c:413-423 | the object afterwards is ParseModel.Finalize of the object before |
| ParseProperties.ProcessAsideAdvances | htp/htp_multipart.c:316-406 | reconciliation keeps every finalized part and the pattern and the counters, and clears exactly the withheld CR and the pieces |
| ParseProperties.MismatchAdvances | htp/htp_multipart.c:524-542 | a mismatch keeps the finalized parts and does not count a boundary |
| ParseProperties.MatchAdvances | htp/htp_multipart.c:552-562 | a match counts exactly one boundary, keeps every part finalized before, and leaves every part finalized |
| ParseProperties.DataStepAdvances | htp/htp_multipart.c:449-504 | a Data step keeps the finalized parts and changes no counter |
| ParseProperties.BoundaryStepAdvances | htp/htp_multipart.c:512-568 | a Boundary step counts a boundary exactly when it completes the pattern |
| ParseProperties.StepAdvances | htp/htp_multipart.c:447-614 | any step keeps the finalized parts and the pattern, never lowers the counters, and counts at most one boundary, exactly at a complete match |
| ParseProperties.FinishAdvances | htp/htp_multipart.c:505-573 | the end-of-chunk flush keeps the finalized parts and the counters |
| ParseProperties.RunAdvances | htp/htp_multipart.c:443-615 | a run to the end of the chunk keeps every finalized part and the pattern, and never lowers the counters |
| ParseProperties.ParseChunkAdvances | htp/htp_multipart.c:434-618 | a chunk never changes a finalized part, never lowers the boundary count and never clears the last-boundary flag |
| ParseProperties.RunSteps | htp/htp_multipart.c:443-447 | a run is the same when entered after any number of its steps |
| ParseProperties.StepsMatchByte | htp/htp_multipart.c:545-549 | a matched byte short of the pattern's end is one MatchByte step |
| ParseProperties.StepsMatchLast | htp/htp_multipart.c:545-566 | the pattern's last byte is one BoundaryMatch step |
| ParseProperties.MatchSteps | htp/htp_multipart.c:514-549 | when the rest of the pattern follows, the Boundary state consumes it up to its last byte, changing nothing but bpos, pos and the remembered first byte |
| ParseProperties.StepsEnterBoundary | htp/htp_multipart.c:477-499 | a line ending in Data is one EnterBoundary step |
| ParseProperties.PartsAtMatchNoAside | htp/htp_multipart.c:552-562 | with nothing set aside, a match dispatches only the content before its line ending and then finalizes the part |
| ParseProperties.DelimiterInChunk | htp/htp_multipart.c:477-566 | a delimiter found in the chunk after LF or CR LF takes \|pattern\| - 1 steps. It counts one boundary and enters BoundaryIsLast2 with no CR withheld. The content before the line ending, and nothing else (not the line ending, not a CR withheld from the previous chunk), goes to the current part, which is then finalized |
| ParseProperties.DelimiterSteps | htp/htp_multipart.c:477-549 | the line ending and the rest of the pattern but its last byte reach the cursor at the last pattern byte |
| ParseProperties.PrefixSteps | htp/htp_multipart.c:514-549 | k matching pattern bytes short of the last are k steps that advance bpos and the position by k and change nothing else but the remembered first byte of the candidate line |
| ParseProperties.LineEndPrefixSteps | htp/htp_multipart.c:477-549 | a line ending followed by k matching pattern bytes is k + 1 steps, reaching the candidate k bytes into the pattern |
| ParseProperties.PrefixCursor | htp/htp_multipart.c:477-549 | that candidate is at bpos 2 + k, k bytes past the line ending, with data_return_pos and boundarypos at the end of the line ending and the rest of the cursor unchanged |
| ParseProperties.MismatchInChunk | htp/htp_multipart.c:477-542 | a candidate rejected in the chunk after a line ending, k matching bytes and a mismatching byte returns to Data with bpos 2 + k and the first byte of the candidate line recorded. In line mode the run up to the end of the line ending goes to the part as one line and startpos moves past it, the position staying at the mismatching byte. In data mode scanning resumes after the line ending, startpos is kept, and only a withheld CR is delivered |
| ParseProperties.MismatchSteps | htp/htp_multipart.c:477-542 | the line ending, the k matching bytes and the mismatching byte are k + 2 steps ending in BoundaryMismatch at the candidate |
| ParseProperties.MismatchStep | htp/htp_multipart.c:517-542 | the mismatching byte is one step: the first byte is remembered, then BoundaryMismatch |
| ParseProperties.PrefixCandidate | htp/htp_multipart.c:517-521 | remembering the first byte at the candidate k bytes into the pattern gives the candidate with the first byte after the line ending recorded |
| ParseProperties.MismatchAfterPrefix | htp/htp_multipart.c:524-542 | the mismatch at such a candidate, per mode: the line dispatched in line mode, only a withheld CR in data mode |
| ParseProperties.CandidateStored | htp/htp_multipart.c:477-571 | a candidate cut off by the chunk end after a line ending and j matching bytes stores the chunk's bytes from startpos as the one boundary piece, boundarypos marking the end of the line ending in it, with bpos 2 + j; no part changes |
| ParseProperties.DelimiterAcrossChunks | htp/htp_multipart.c:512-571 | a delimiter split across two chunks counts one boundary and enters BoundaryIsLast2 with bpos at the pattern's end, as inside a chunk |
| ParseProperties.DelimiterAcrossChunksParts | htp/htp_multipart.c:316-363 | for such a delimiter the current part receives the first chunk's content without the line ending, and is finalized |
| ParseProperties.ResumeAcross | htp/htp_multipart.c:512-566 | the second chunk completes the candidate stored by the first, reaching the last pattern byte with the first byte of the candidate line a dash |
| ParseProperties.StoredResumes | htp/htp_multipart.c:512-566 | the machine the first chunk leaves meets the conditions for resuming the match |
| ParseProperties.ResumeStored | htp/htp_multipart.c:512-566 | a stored candidate resumed at the start of a chunk holding the rest of the pattern runs to BoundaryMatch at the last pattern byte |
| ParseProperties.ResumedMatchSteps | htp/htp_multipart.c:514-566 | resumed at the start of a chunk, the rest of the pattern is steps up to the complete match |
| ParseProperties.ResumedMatchLast | htp/htp_multipart.c:517-521 | resumed at the start of a chunk, the candidate line is recorded as starting with a dash |
| ParseProperties.LastByteAfterLineStart | htp/htp_multipart.c:545-566 | past bpos 2 the last pattern byte is one BoundaryMatch step |
| ParseProperties.PartsAtMatchStored | htp/htp_multipart.c:348-363 | a match with one stored piece delivers the start of that piece up to boundarypos, line ending removed, then finalizes the part |
| ParseProperties.StoredMatchDelivers | htp/htp_multipart.c:552-562 | a match of a stored candidate completed at the start of a chunk delivers nothing of that chunk, only the trimmed stored piece |
| ParseProperties.StoredMatch | htp/htp_multipart.c:545-566 | the completed match of a stored candidate counts one boundary and enters BoundaryIsLast2 with no CR withheld |
| ParseProperties.StoredParts | htp/htp_multipart.c:348-363 | the parts after that match: the stored content without its line ending, then the part finalized |
| ParseProperties.StoredContent | htp/htp_multipart.c:351-360 | the stored piece up to the end of its line ending, trimmed, is the content before the line ending |
| ParseProperties.CloseDelimiter | htp/htp_multipart.c:575-593 | two dashes after a delimiter set the last-boundary flag and move to BoundaryEatLF, consuming both |
| ParseProperties.NoCloseDelimiter | htp/htp_multipart.c:575-600 | any other byte moves to BoundaryEatLF without being consumed |
| ParseProperties.EatLine | htp/htp_multipart.c:603-612 | the rest of the delimiter line is skipped up to and including the next LF, then Data resumes just after it with nothing else changed |
| ParseProperties.EatToEnd | htp/htp_multipart.c:603-612 | without an LF in the rest of the chunk, the rest of the chunk is dropped |
| ParseProperties.ContentRun | htp/htp_multipart.c:459-508 | content without line endings runs to the chunk end and goes to the current part in one dispatch, except for a final CR, which is withheld |
| ParseProperties.ContentChunk | htp/htp_multipart.c:449-508 | a chunk of such content reaches the current part in one dispatch, without a final CR |
| ParseProperties.WithheldCRDelivered | htp/htp_multipart.c:453-508 | a CR withheld at the end of a chunk is dispatched as one data byte at the start of the next chunk when that chunk does not open with LF, and the chunk's content follows |
| ParseProperties.DataPlanDelivers | htp/htp_multipart.c:393-399 | the stored pieces dispatched as data deliver exactly their joined bytes, as many as the pieces hold together, none as a line |
| ParseProperties.AsideDeliversData | htp/htp_multipart.c:384-402 | after a mismatch in data mode the withheld CR, then every stored byte in order, are delivered as data, nothing as a line |
| ParseProperties.AsideDeliversLine | htp/htp_multipart.c:325-383 | after a mismatch in line mode every stored byte is delivered in order. The first dispatch is the candidate line (boundarypos bytes) as a line, and everything after it is data |
| ParseProperties.AsideDeliversMatch | htp/htp_multipart.c:325-383 | after a match only the first piece up to boundarypos, its line ending removed, is delivered; later pieces are dropped |
| Findings.AsWrittenAfterMatch | htp/htp_multipart.c:566-577 | as written, the dash test after a match reads outside the chunk exactly when the match ended at the chunk's last byte |
| Findings.DashTestPastChunkEnd | htp/htp_multipart.c:566-577 | the first chunk `--a` for boundary `a` matches at its last byte, and the dash test as written then reads outside the chunk |
| Findings.MatchAtChunkEnd | htp/htp_multipart.c:443-566 | corrected: a match completed by a chunk's last byte ends the chunk in BoundaryIsLast2 with one more boundary counted; the dash test waits for the next chunk |
| Findings.DeclaredBoundaryMissed | htp/htp_multipart.c:524 | as written, an upper-case letter of the declared boundary never matches its own pattern byte |
| Findings.DeclaredBoundaryMatches | htp/htp_multipart.c:524 | corrected: an input byte matches a pattern byte exactly when both lowercase to the same byte, so the boundary matches as declared |
| Findings.AsWrittenDataStep | htp/htp_multipart.c:453-504 | as written, a withheld CR is dispatched as data at the start of every chunk |
| Findings.AsWrittenScan | htp/htp_multipart.c:459-505 | iterating the Data loop as written keeps the cursor consistent |
| Findings.SeamCRDelivered | htp/htp_multipart.c:453-469 | after a chunk ending in CR and a chunk opening with LF, the code as written gives the CR to the part as data; the corrected step keeps it withheld and starts a candidate |
| Findings.SeamCRDiscarded | htp/htp_multipart.c:464-469 | corrected: such a seam followed by the rest of the delimiter closes the part without delivering the CR, as the comment promises |
| Findings.LoneCRStalls | htp/htp_multipart.c:460-488 | as written, a CR followed by a byte other than LF is never moved past, whatever the number of iterations |
| Findings.LoneCRIsContent | htp/htp_multipart.c:460-504 | corrected: such a CR is one content byte and the scan moves to the next byte |
| Findings.AsWrittenPartsAtMatch | htp/htp_multipart.c:552-562 | as written, the parts at a match receive this chunk's content including the delimiter's line ending |
| Findings.InChunkLineEndKept | htp/htp_multipart.c:556 | content followed by CR LF reaches the part with its CR LF as written, and without it as corrected |

## Left out

- The Apache module glue (mod_libhtp.c) is not part of this model.
- `htp_mpartp_destroy`, `htp_mpart_part_destroy` and every allocation and its failure branch are left out; allocation always succeeds, since callers ignore the results anyway.
- The error codes returned by the callbacks (always 1 once allocation succeeds) are not modelled; the operations return no status.
- `bstr_builder_*`, `bstr_*` and `list_array_*` are not part of this model. The builders are sequences of byte pieces and the part list is a sequence; `bstr_builder_size` is the number of pieces.
- The debug output of `fprint_raw_data` is not modelled; each surfaced header line is recorded, in order, in the ghost log `lines` instead.
- `tolower` is locale-dependent; only ASCII lowercasing is modelled.
- The enumeration values of `htp_multipart.h` are not part of this model. Part kinds and modes are datatypes with an explicit unset kind (`Unknown`) for parts created between boundaries. `File` is tested for but never assigned.
- The parser is allocated with `calloc`, so `current_mode` starts as the zero enumeration value; the model takes that to be `MULTIPART_MODE_LINE` (`Initial` sets `LineMode`). This choice matters for the first part after a delimiter with no preamble before it, because `htp_mpartp_handle_boundary` (line 215) resets the mode only when a part exists.
- Part names and headers are not parsed by this code and are not modelled.
- The current part is an index into the part list rather than a pointer, and parts are values updated in the list.
- `pos - startpos - cr_aside` at line 508 goes below zero in the model for one input: an empty chunk arriving in the Data state with a CR withheld. `Finish` and `Parser.FlushData` then compute -1, and their `n > 0` guard skips the dispatch. The C code never reaches line 508 with an empty chunk, since its outer loop does not run. The unsigned wrap-around the expression would have in C is not modelled.
- Chunk independence and full byte conservation are not stated in general. The code departs from them (finding 4). Delivery is stated per path instead: a delimiter inside a chunk (DelimiterInChunk) and split across two chunks (DelimiterAcrossChunksParts), a candidate rejected inside a chunk (MismatchInChunk) or stored at its end (CandidateStored), and each reconciliation (AsideDeliversData, AsideDeliversLine, AsideDeliversMatch).
- The boundary is taken with `strlen` (htp/htp_multipart.c:254), so a boundary string stops at its first NUL byte. The model's `boundary` argument stands for the bytes before that NUL; a sequence holding a zero byte has no counterpart in the C call.
- MultipartParser.Parser.ProcessAside: the C loop that splits the first piece inside the piece loop is structured as separate methods, SplitAtMatch, SplitLine and DispatchPieces. They dispatch the same pieces in the same order.
- ParseModel.DataStep, ParseModel.BoundaryStep, ParseModel.TailStep, ParseModel.Step: their own contracts state only consistency and progress. What each step does is stated by the lemmas of ParseProperties and by the MultipartParser methods, whose contracts equate them with these functions.

## Findings

Finding 2's correction follows the code's evident intent: it lowercases the pattern, so it evidently means the comparison to ignore case. RFC 2046 treats boundaries as case-sensitive, so comparing both sides raw would be the other consistent choice.

| source | as written | input that shows it | evidently intended | confidence | as-written member | corrected member |
|---|---|---|---|---|---|---|
| htp/htp_multipart.c:566 | after a match, control jumps back into the state switch without testing `pos < len`, and the dash test at line 577 reads `data[pos]` | boundary `a`, first chunk `--a`: the match ends at the chunk's last byte and line 577 reads `data[3]` of a 3-byte chunk | the dash test runs only while bytes remain and otherwise continues in the next chunk | high, not executed | Findings.DashTestPastChunkEnd | Findings.MatchAtChunkEnd |
| htp/htp_multipart.c:524 | input bytes are compared raw with a pattern lowercased at line 270 | boundary `A`, body `--A`: `A` never equals the pattern byte `a`, so no delimiter is ever found | the input byte is lowercased before the comparison | medium, not executed | Findings.DeclaredBoundaryMissed | Findings.DeclaredBoundaryMatches |
| htp/htp_multipart.c:453-456 | a CR withheld at the end of a chunk is dispatched as data at the start of the next chunk, even when that chunk opens with LF | chunks `x\r` and `\n--b` with boundary `b`: the part receives `x` and then the CR of the delimiter's line ending | a withheld CR followed by LF and a delimiter is discarded, as the comment at lines 464-469 says | high, not executed | Findings.SeamCRDelivered | Findings.SeamCRDiscarded |
| htp/htp_multipart.c:556 | content before a delimiter found in the same chunk is dispatched up to `data_return_pos`, including the delimiter's CR LF | chunk `x\r\n--b` after a part was opened: the part receives `x\r\n` | the line ending is dropped, as at lines 353-362 when the delimiter started in an earlier chunk | high, not executed | Findings.InChunkLineEndKept | ParseProperties.DelimiterInChunk |
| htp/htp_multipart.c:474-488 | a CR followed by a byte other than LF is neither consumed nor skipped, so the inner Data loop repeats at the same position | chunk `a\rb` in the Data state: the loop never ends | the CR is taken as an ordinary content byte | high, not executed | Findings.LoneCRStalls | Findings.LoneCRIsContent |

# Verified model of the replay-tape, codec, publication and audit code

This project models the parts of OpenTTD-RL that must not be wrong quietly, and proves what they promise on
every input, every run or every crash:

- **Replay tapes.** The C writer, reader, projection parser, streaming cursor, comparator and minimizer
  (`parity/src`), and the independent Python decoder (`parity/python_reference`). Tapes are byte sequences;
  every layout, limit, branch and status is the code's. The central results: the reader accepts exactly the
  serializations of tapes that obey the format's rules, stated record by record and byte by byte, and refuses any
  other input with the status of its first fault; the cursor, which re-decodes without checking, hands out
  exactly those records; the comparator says "same" exactly when all significant records agree, and otherwise
  names the first difference and what stands before it; the minimizer's outcome is stated for every pair of
  tapes, and what it writes is the target cut at the difference, which shows the very same result; the Python
  decoder accepts exactly the files of what it returns, and agrees with the C reader exactly when the header
  length is a multiple of eight and all record versions are 1.
- **Canonical text and the command-input codec.** The UTF-8 and canonical-JSON recognizers, as recursive
  descent over a mutable cursor, accept exactly the encodings of scalar values (sections 3 and 4 of RFC 3629) and
  exactly the renderings of canonical trees; a refused text gets the status of its first fault. The
  command-input builder and parser are inverse to each other, over streams laid out byte by byte, so the
  builder's closing self-check never fails.
- **Publication.** The atomic file write, over a disk whose every call may fail, be interrupted or come up
  short, and the lossless archiver, as a state machine over its steps with a crash possible after each of them.
- **Learning-side arithmetic.** Interleaved advantage estimation, the capital ledger, the exchange of legal
  candidate rows, and the table-driven CRC32C.

Code that changes things step by step is modelled by classes and methods with loops, each proved against a
specification function; the theorems are lemmas about those functions. The archiver's workers run concurrently
and are a state machine; `archive_one` and the loops of `apply` are methods whose every call is proved to be a
step of that machine.

## How to read it

`dafny verify dfyconfig.toml` checks everything. One file holds one module.

| modules | what they are |
|---|---|
| `Wrappers`, `Bytes`, `CheckedArithmetic`, `TapeFormat`, `Structs` | results, little-endian integers, size arithmetic, record framing, struct layouts |
| `FieldRegistry`, `Projection`, `LifeCycle`, `TapeReader`, `TapeBijection`, `CommandGrammar`, `TapeLoader`, `RecordCursor`, `TapeWriter` | tapes, from fields to files |
| `ProjectionRules`, `TapeRules`, `TapeLayout` | what projections and tapes are, by index and byte offset, without the reader's steps |
| `ProjectionFaults`, `TapeFaults` | why projections and tapes are refused, and with which status |
| `Comparator`, `ComparatorExactness`, `ComparatorRun`, `ComparatorReport` | the comparison as functions, what it establishes, the loops that compute it, and what its report says |
| `Minimizer`, `MinimizerRun`, `FindFirst` | cuts, their properties, and the loops |
| `PythonDecoder`, `PythonDecoderRun`, `PythonExact`, `PythonFaults` | the independent decoder, its loops, what it accepts and why it refuses |
| `SampleTapes` | concrete tapes: valid ones, and the inputs for which conditional properties fail |
| `Utf8`, `CanonicalJson`, `CanonicalJsonExact`, `CanonicalJsonFaults`, `CanonicalJsonRun`, `KeyOrder` | canonical text |
| `CommandInput`, `CommandInputExact`, `CommandInputLayout`, `CommandInputRun`, `CommandRegistry` | command-input streams |
| `Disks`, `AtomicWrite`, `Archiver`, `ArchiverSafety`, `ArchiverSteps`, `ArchiverRecovery`, `ArchiverRun`, `Restoration` | publication |
| `Credit`, `AssetPotential`, `Candidates`, `CandidatesRun`, `Predictions`, `Crc32c` | learning-side arithmetic |

Parameters stand for what the code gets from outside: `Context` carries SHA-256, the header check, the registry
(any sequence of rows sorted by id) and the two local limits, which may differ from call to call (`Unlimited` drops
them); `Codec` carries header JSON, SHA-256 and the rules;
`Plan` carries hashing and decompression. SHA-256 is any function to 32 bytes; only the archiver assumes that it
has no collisions. `AllReadable` says that payloads are long enough for the fixed offsets the comparison reads;
it holds of every valid tape (`ComparatorExactness.ComparisonExact`).

## Where the code and its descriptions differ

The model follows the code.

- `docs/decisions/0004-tape-format-v1.md` calls the header RFC 8785 canonical JSON without negative values. The
  recognizer accepts negative integers and `-0`: an accepted text is the one rendering of its value exactly when it
  writes no `-0` (`CanonicalJsonExact.CanonicalUnlessNegativeZero`, with the input in `NegativeZeroAccepted`). It
  orders keys by raw escaped bytes: two keys are ordered as in section 3.2.3 of RFC 8785 exactly when the first
  characters in which they differ are ordered alike (`KeyOrder.KeyOrderExactly`, with inputs in `KeyOrderDiffers`).
- The same document has unknown optional record types skipped in comparison, record types 7 to 9 require
  `OPTIONAL_DIAGNOSTICS`, and the minimizer reuse the original terminal. The code compares unknown optional
  records (`SampleTapes.FutureCompared`), asks for the flag on type 10 only (`SampleTapes.LooserThanDescribed`), and
  writes a fresh terminal with reason 0.
- Minimization is described without conditions. It fails when the divergence lies at a record that is no command
  or projection while a command is open or before any projection, and when it lies at the terminal and the fresh
  terminal no longer differs. `MinimizerRun.Minimize` answers `CutStatus` for every pair of tapes, which is success
  exactly when `CutWorks` holds and the cut is within the limits of the call (`MinimizerRun.CutStatusOK`);
  `MinimizerComplete` shows `CutWorks` for every divergence at a command or projection record. Inputs that fail:
  `SampleTapes.EndNotMinimized`, two tapes that differ in the reason of their terminals, and
  `SampleTapes.StartNotMinimized`, two that start at different boundaries.
- C pads records from the record's start and Python from the file's: `PythonDecoder.DecoderAgrees` states exactly
  when the two readers agree. Inputs on which they part: `SampleTapes.DecodersPart`, a tape with a header of one byte
  and a tape with an optional record of version 2.
- A replay-start record in mid-tape is not rejected (`SampleTapes.LooserThanDescribed`), and the value bytes of a
  field divergence run on to the end of the field; `ComparatorExactness.DivergentElement` claims the element index.
- `restore` writes under the file's own name and never flushes the directory. After a finished restoration a crash
  leaves the whole file or leaves it to be restored again (`Restoration.FinishedRestore`); after an interrupted one it
  may leave any content under the name, which the next attempt refuses to touch (`Restoration.TornRestore`). The archive
  and its checks are never harmed (`Restoration.InterruptedRestore`).
- The archiver flushes its journal and the journal's directory but not that directory's own entry. The results
  about the journal take the journal file as surviving; that no data is lost does not depend on it, because a
  removed file's durable archive sits beside it under a fixed name
  (`ArchiverRecovery.RemovedOnlyWhenRecoverable`).

## Model

| member | source | states |
|---|---|---|
| CheckedArithmetic.Add | parity/src/checked_arithmetic.c:6-13 | the exact sum when it fits in 64 bits, and nothing otherwise |
| CheckedArithmetic.Mul | parity/src/checked_arithmetic.c:15-22 | the exact product when it fits, and nothing otherwise; the division test never overflows |
| CheckedArithmetic.Align8 | parity/src/checked_arithmetic.c:24-29 | the least multiple of eight not below the value, when it fits |
| TapeFormat.HeaderRoundTrip | parity/src/tape_writer.c:188-194 | a stored record header loads back to the same header |
| TapeFormat.HeaderBytesRoundTrip | parity/src/tape_reader.c:653-660 | forty header bytes are the storage of the header they load to |
| FieldRegistry.AuthoritativeSorted | parity/src/tape_reader.c:227-230 | the rows a projection must carry keep the registry's order |
| ProjectionRules.AuthoritativeExact | parity/src/tape_reader.c:227-230 | a projection must carry exactly the registry rows of the authoritative class |
| Projection.FirstPassSound | parity/src/tape_reader.c:199-360 | what the first pass accepts is the layout of fields that each satisfy their registry row, in order |
| Projection.FirstPassComplete | parity/src/tape_reader.c:199-360 | every layout of fields that satisfy their rows passes the first pass and gives those fields |
| Projection.AcceptedIsProjection | parity/src/tape_reader.c:158-435 | the parser accepts a payload with given fields exactly when it is a projection of the registry: header, one good field for each authoritative row, all cross-field relations, nothing after |
| Projection.ProjectionRelations | parity/src/tape_reader.c:361-434 | in an accepted projection a counted field has as many elements as its count source says, and an offset vector cuts any array of its target's length into slices that join to the whole array |
| Projection.CheckField | parity/src/tape_reader.c:209-354 | one round of the first pass, on the payload in place, is the parse of the unread part, and says where the next field starts |
| Projection.FirstPass | parity/src/tape_reader.c:199-360 | the loop over the payload answers what the parse of its fields answers |
| Projection.ScalarAt | parity/src/tape_reader.c:124-156 | the rescan for a scalar stays in bounds and finds the value of the scalar field with that id, if it is one |
| Projection.CheckOffsets | parity/src/tape_reader.c:396-431 | the word-by-word check holds exactly for vectors that start at zero, never decrease and end at the total |
| Projection.SecondPass | parity/src/tape_reader.c:361-434 | the unchecked second pass stays in bounds and succeeds exactly when all relations hold |
| Projection.ParseProjection | parity/src/tape_reader.c:158-435 | both passes together answer the status of the first failing check |
| ProjectionRules.RowExact | parity/src/tape_reader.c:231-354 | the checks on a field are exactly: its row's id and type, the allowed number of elements, at most 64 MiB, and a value of the declared width, raw bytes, bits without strays, or diagnostic UTF-8 |
| ProjectionRules.ProjectionExactly | parity/src/tape_reader.c:158-435 | a payload is read as given fields exactly when header, field count, layout, every row and every relation between fields are as the registry says |
| ProjectionFaults.RefusedExactly | parity/src/tape_reader.c:158-435 | a payload is refused with a status exactly when its first fault, after good fields, leads to that status |
| LifeCycle.RunSplit | parity/src/tape_reader.c:637-829 | reading records in two stretches is reading them in one |
| TapeBijection.ReaderSound | parity/src/tape_reader.c:455-841 | what an accepted input decodes to is a valid tape, and serializing it again gives the identical bytes |
| TapeBijection.ReaderComplete | parity/src/tape_reader.c:455-841 | every valid tape is accepted and decodes to itself |
| TapeBijection.ReaderExact | parity/src/tape_reader.c:455-841 | the reader accepts exactly the serializations of valid tapes and reads each one back |
| TapeBijection.SerializedStatus | parity/src/tape_reader.c:455-841 | reading a serialized tape answers a limit error outside the local limits, else the status of the first record that breaks a rule, else a structure error without a projection, else the tape |
| TapeRules.RecordsExact | parity/src/tape_reader.c:637-829 | the reader's run over records succeeds exactly when they obey the rules by position: header, first and last type, payload bytes, command grammar, a projection, at most a million commands |
| TapeRules.RulesExact | parity/src/tape_reader.c:455-841 | a tape is valid exactly when header, flags, sizes and records obey the rules, stated without the reader's states |
| TapeRules.AcceptedExactly | parity/src/tape_reader.c:455-841 | an input is read as a tape exactly when the tape obeys the rules and the input is its serialization |
| TapeFaults.RecordExactly | parity/src/tape_reader.c:640-819 | one round of the record loop fails with exactly the first fault of the record: by byte offset, and by the records before it |
| TapeFaults.RefusedExactly | parity/src/tape_reader.c:455-841 | any input is refused with a status exactly when its first fault leads to it: in the prefix, the lengths, the trailer, the checksum, the header, a record after good records, or the end |
| TapeLayout.RecordLayout | parity/src/tape_writer.c:182-200 | the byte offset of every field of a stored record, and its zero padding |
| TapeLayout.FieldLayout | parity/src/tape_reader.c:209-219 | the byte offset of every part of a projection field, and its zero padding |
| TapeLayout.SerializedLayout | parity/src/tape_writer.c:171-208 | the byte offset of every part of a tape file: literal magics and codes, counts, maxima, digest of everything before it |
| TapeBijection.RunLast | parity/src/tape_reader.c:756-829 | a completed read ends in its only terminal record, with no command open and a projection seen |
| CommandGrammar.CommandsComplete | parity/src/tape_reader.c:756-817 | in every valid tape each intent is followed by exactly one test result with its id, an execution result with its id exactly when the test succeeded, and a projection, before the next intent |
| CommandGrammar.CommandCounts | parity/src/tape_reader.c:756-817 | as many test results as intents, as many executions as successful tests, at least as many projections as intents |
| TapeLoader.LoadedUnlimited | parity/src/tape_reader.c:487-541 | a tape loaded under any local limits is one the library loads without them: no other check looks at them |
| TapeLoader.CheckBody | parity/src/tape_reader.c:750-817 | the payload and life-cycle checks on one record answer the step of the life cycle; which payloads pass, and with which status others fail, is `TapeRules.RecordsExact` and `TapeFaults.RecordExactly` |
| TapeLoader.ReadRecord | parity/src/tape_reader.c:640-819 | one round of the record loop, in place, is one step on the unread part, and stays before the trailer |
| TapeLoader.ReadRecords | parity/src/tape_reader.c:637-829 | the record loop answers the reading of the whole region, and keeps exactly the records read when asked to |
| TapeLoader.ValidateBytes | parity/src/tape_reader.c:455-841 | the validator accepts exactly what the specification accepts, with its status otherwise (`TapeRules.AcceptedExactly`, `TapeFaults.RefusedExactly`); the loaded tape represents the decoded one, retained or mapped |
| RecordCursor.WalkExact | parity/src/tape_reader.c:942-989 | walking the bytes of any valid tape without checks yields exactly its records, ends at the trailer after that many steps and never reads outside the record region |
| RecordCursor.DecodeFront | parity/src/tape_reader.c:950-985 | decoding at the front of a record region gives its first record and the rest of the region |
| RecordCursor.Cursor.constructor | parity/src/tape_reader.c:930-940 | a new cursor has everything still to hand out |
| RecordCursor.Cursor.Next | parity/src/tape_reader.c:942-989 | retained or mapped, the cursor hands out the stored records one by one and nothing after the last; a mapped one then stands on the trailer |
| TapeWriter.Writer.constructor | parity/src/tape_writer.c:6-49 | a new writer holds the empty tape with the header and the options, the required bit cleared |
| TapeWriter.Writer.Grow | parity/src/tape_writer.c:51-83 | growing keeps the contents and makes room, or reports the limit and changes nothing |
| TapeWriter.Writer.AddRecord | parity/src/tape_writer.c:85-134 | exactly the given record is appended, or nothing changes and the status says why |
| TapeWriter.Writer.Fill | parity/src/tape_writer.c:171-204 | the output, filled in place from front to back, is the serialization of what the writer holds |
| TapeWriter.Writer.Finish | parity/src/tape_writer.c:136-219 | finalization succeeds exactly once and exactly when what the writer holds is a valid tape, whose serialization it returns; otherwise the status is the reader's, a limit or a misuse |
| TapeWriter.SelfCheck | parity/src/tape_writer.c:209-219 | the closing validation passes exactly for valid tapes and decodes to the tape written |
| TapeWriter.SerializeInjective | parity/src/tape_writer.c:136-219 | no two tapes, valid or not, have the same bytes |
| ComparatorExactness.IntentExact | parity/src/comparator.c:302-386 | comparing two validated intents finds nothing exactly when all payload bytes are equal |
| ComparatorExactness.OutcomeExact | parity/src/comparator.c:302-386 | comparing two validated results finds nothing exactly when all payload bytes are equal |
| ComparatorExactness.ProjectionExact | parity/src/comparator.c:426-503 | comparing two accepted projections finds nothing exactly when the payloads are equal, and never reports a missing field |
| ComparatorExactness.DivergentElement | parity/src/comparator.c:466-500 | the element a field divergence names is the first that differs; the values reported start there |
| ComparatorExactness.RecordExact | parity/src/comparator.c:593-631 | comparing two validated records finds nothing exactly when type, version, flags, step, tick and every payload byte agree |
| ComparatorExactness.EndsTogether | parity/src/comparator.c:581-592 | two validated tapes that agree so far run out together: an end of one stream alone is never reported |
| ComparatorExactness.ComparisonExact | parity/src/comparator.c:505-638 | the comparison is "same" exactly when the significant records agree; otherwise everything before the reported pair agrees and the pair differs as reported |
| ComparatorExactness.ComparisonEquivalence | parity/src/comparator.c:505-638 | "same" is reflexive, symmetric and transitive on validated tapes |
| ComparatorReport.ReportedContext | parity/src/comparator.c:192-242 | for two valid tapes that differ: positions, boundary and type of the diverging records; the last intent, test, execution and checkpoint are the last such records before it, or all ones when there is none; diagnostics are noted exactly when they are not in step up to there |
| ComparatorReport.IntentReported | parity/src/comparator.c:302-386 | two different valid intents: the field or data byte that holds the first differing byte, with its type, width, values, command and index |
| ComparatorReport.OutcomeReported | parity/src/comparator.c:302-386 | two different valid results: the field or data byte that holds the first differing byte, with its type, width, sign, values, command and index |
| ComparatorReport.ProjectionReported | parity/src/comparator.c:426-503 | two different accepted projections: the first field that differs, its first differing element and the values from there; or, with equal fields, only that the headers differ |
| ComparatorReport.DifferenceReported | parity/src/comparator.c:593-631 | for any two valid tapes that differ, what the result says of the two records: only that they differ, when type, boundary or length do or the type has no fields; otherwise the first field or byte of the command, or the first field of the projection, with both values |
| ComparatorReport.IdentityExact | parity/src/comparator.c:537-554 | a schema error exactly when a string is missing before any differs, an identity error exactly when one differs first |
| ComparatorRun.CompareCommand | parity/src/comparator.c:302-386 | the table-driven loop over fixed fields and the raw tail finds the first difference of the specification |
| ComparatorRun.CompareProjection | parity/src/comparator.c:426-503 | two field cursors advanced together find the first differing field and element |
| ComparatorRun.AddContext | parity/src/comparator.c:192-242 | the two extra walks gather the last projection, the last checkpoint and the declared diagnostics of the report, whose meaning `ComparatorReport.ReportedContext` states |
| ComparatorRun.SkipDiagnostics | parity/src/comparator.c:561-578 | stepping over optional diagnostics on either side changes nothing but the note that they differ |
| ComparatorRun.CheckIdentity | parity/src/comparator.c:537-554 | the ten identity strings are checked in order; a missing one is a schema error, a different one an identity error |
| ComparatorRun.Compare | parity/src/comparator.c:505-638 | identity first, then one pass over both cursors whose report is that of the specification, with its status; `ComparatorReport` states every field of that report |
| Minimizer.CutValid | parity/src/comparator.c:664-791 | a cut closed with a fresh terminal is a valid tape exactly when no command is open and a projection has been seen, and it is never longer |
| Minimizer.CutRead | parity/src/comparator.c:840-843 | reading a cut back, under any limits, answers a limit error, a structure error when it is not closed, or the cut |
| Minimizer.ClosureCloses | parity/src/comparator.c:640-662 | for a divergence at a command or projection record the closing record found is a projection, before the terminal, after which the cut is closed |
| Minimizer.NextProjectionFirst | parity/src/comparator.c:640-662 | the closing record of a command is the first projection at or after it |
| Minimizer.CutIsCut | parity/src/comparator.c:664-791 | the cut has the target's header and flags, its records up to the diverging one or, for a command record, the next projection, and one terminal at that boundary; at a terminal only that is replaced |
| Minimizer.CutReports | parity/src/comparator.c:847-864 | a cut that contains the divergence is reported exactly as the whole target was |
| Minimizer.ShorterCut | parity/src/comparator.c:847-864 | a target cut before the diverging record meets its fresh terminal with a bare record difference |
| MinimizerRun.FindClosure | parity/src/comparator.c:640-662 | the walk with the cursor finds the closing record |
| MinimizerRun.WriteMinimized | parity/src/comparator.c:664-791 | the two walks write exactly the serialization of the cut, unless it is over the limit of the call's context, whatever limits the target was loaded under |
| MinimizerRun.Bisect | parity/src/comparator.c:823-836 | the bisection finds the required position, or the last one when that is beyond the end |
| MinimizerRun.CutOutcome | parity/src/comparator.c:793-874 | for any diverging pair, loaded under any limits: the cut is no longer than the target, reading it back answers exactly as stated, and the oracle then compares with it as with the whole target exactly when `CutWorks` |
| MinimizerRun.Verify | parity/src/comparator.c:842-868 | the status of reading the output back, or an invariant violation unless the oracle still differs from it with the original signature |
| MinimizerRun.Minimize | parity/src/comparator.c:793-874 | for all tapes, whatever limits they were loaded under: the identity status, a usage error for equal tapes, or `CutStatus`; on success the output decodes to the target cut at the difference (`IsCut`), is no longer, and compared with the oracle gives exactly the result the whole target gives; for a field value no shorter closed prefix of the target does |
| MinimizerRun.CutStatusOK | parity/src/comparator.c:793-874 | success means exactly that the cut works and is within the limits of the call, which it is whenever the target is |
| MinimizerRun.CutStatusExact | parity/src/comparator.c:793-874 | a limit error exactly when the cut is over the limits of the call, a structure error only when it is not valid, an invariant violation only when the oracle no longer differs from it |
| MinimizerRun.MinimizerComplete | parity/src/comparator.c:793-874 | it succeeds for every first divergence at a command or projection record of the target |
| MinimizerRun.MinimizerShortest | parity/src/comparator.c:793-874 | for a field-value divergence no shorter cut shows the same signature, and the cut ends at the diverging record |
| FindFirst.FindFirstTrue | parity/src/minimizer.c:7-37 | the first true position, monotone flags or not; the fallback is reported exactly when they are not monotone |
| PythonDecoder.ProjectionAgrees | parity/python_reference/tape_reference.py:173-251 | a projection the C parser accepts decodes to the same fields |
| PythonDecoder.StepAgrees | parity/python_reference/tape_reference.py:301-325 | at an aligned offset both framings read the same record; only a version other than 1 parts them |
| PythonDecoder.DecoderAgrees | parity/python_reference/tape_reference.py:254-332 | a tape the C reader accepts, whose header passes the decoder's check, is decoded exactly when the header length is a multiple of eight and all versions are 1, and then to the same records |
| PythonExact.ProjectionExactly | parity/python_reference/tape_reference.py:173-251 | the decoder returns given fields for a payload exactly when header, rows, layout and relations are as it asks, which is less than the C parser asks |
| PythonExact.DecodedExactly | parity/python_reference/tape_reference.py:254-332 | the decoder returns a value for an input exactly when the input is the file of that value: prefix, header, records padded to the file offset, and a trailer with the hash of everything before it |
| PythonExact.TakenByReader | parity/python_reference/tape_reference.py:254-332 | of the files the decoder accepts, the C reader takes exactly those with an aligned header that obey the tape rules |
| PythonFaults.ProjectionRefused | parity/python_reference/tape_reference.py:173-251 | a payload raises an error exactly when its first fault, after good fields or relations, leads to that error |
| PythonFaults.RefusedExactly | parity/python_reference/tape_reference.py:254-332 | any input raises an error exactly when its first fault leads to it, checksum and header in the decoder's own order |
| PythonDecoderRun.ReadProjection | parity/python_reference/tape_reference.py:173-251 | the loops of `_projection` answer its specification, error for error, those that are not tape errors included (`PythonExact.ProjectionExactly`, `PythonFaults.ProjectionRefused`) |
| PythonDecoderRun.Decode | parity/python_reference/tape_reference.py:254-332 | the loops of `decode_bytes` answer its specification, error for error once the header's own check has answered (`PythonExact.DecodedExactly`, `PythonFaults.RefusedExactly`) |
| SampleTapes.SampleValid | parity/src/tape_reader.c:455-841 | sample tapes with any acceptable header are valid: valid tapes exist |
| SampleTapes.CheckpointsSampled | parity/src/tape_reader.c:90-96 | a sample tape with a named checkpoint is valid, and read, exactly when the checkpoint's kind is 1 to 8 |
| SampleTapes.LooserThanDescribed | parity/src/tape_reader.c:661-817 | a second replay start, an undeclared diagnostic and a record type from the future are accepted |
| SampleTapes.FutureCompared | parity/src/comparator.c:593-631 | two tapes that differ in an unknown optional record compare as different |
| SampleTapes.DecodersPart | parity/python_reference/tape_reference.py:301-316 | two tapes the C reader accepts and the decoder refuses: one for its header length, one for a record version |
| SampleTapes.EndNotMinimized | parity/src/comparator.c:844-864 | two tapes that differ in the terminal's reason: minimization ends in an invariant violation |
| SampleTapes.StartNotMinimized | parity/src/comparator.c:840-843 | two tapes that differ at the start: the cut does not validate |
| Utf8.WellFormedStep | parity/src/canonical_json_adapter.c:22-64 | peeling off one character the recognizer accepts keeps well-formedness, and no other beginning is well-formed |
| Utf8.Utf8Valid | parity/src/canonical_json_adapter.c:22-64 | accepts exactly the concatenated encodings of sequences of scalar values |
| CanonicalJsonExact.TextComplete | parity/src/canonical_json_adapter.c:72-141 | the shortest escapes of any string scan back to the string, up to the closing quote |
| CanonicalJsonExact.TextSound | parity/src/canonical_json_adapter.c:72-141 | every accepted string text is the shortest escaping of the bytes it stands for |
| CanonicalJsonExact.NumberComplete | parity/src/canonical_json_adapter.c:241-280 | the digits of every integer up to 2^53-1 in magnitude, and `-0`, scan back to it when nothing that continues a number follows |
| CanonicalJsonExact.NumberSound | parity/src/canonical_json_adapter.c:241-280 | an accepted number is the shortest decimal rendering of an integer in range, or `-0` |
| CanonicalJsonExact.ValueComplete | parity/src/canonical_json_adapter.c:156-318 | the rendering of every canonical tree scans back to the tree and consumes exactly the rendering |
| CanonicalJsonExact.ValueSound | parity/src/canonical_json_adapter.c:156-318 | what the recognizer consumes is the rendering of a canonical tree: keys strictly increasing, depth and integers in range |
| CanonicalJsonExact.AcceptedExactly | parity/src/canonical_json_adapter.c:534-555 | a text is accepted exactly when it is well-formed UTF-8 within the length limit and renders a canonical tree |
| CanonicalJsonExact.RenderInjective | parity/src/canonical_json_adapter.c:534-555 | no text renders two canonical trees |
| CanonicalJsonExact.SameValueSameText | parity/src/canonical_json_adapter.c:534-555 | two accepted texts for the same value without `-0` are the same bytes |
| CanonicalJsonExact.CanonicalUnlessNegativeZero | parity/src/canonical_json_adapter.c:241-280 | an accepted text is the one rendering of its value exactly when it writes no `-0` |
| CanonicalJsonExact.NegativeZeroAccepted | parity/src/canonical_json_adapter.c:246-256 | `-0` and `0` are both accepted, for the same value |
| CanonicalJsonFaults.StringsExactly | parity/src/canonical_json_adapter.c:72-141 | a string is refused with a status exactly when good characters are followed by a fault with that status: the end, a control byte, an escape that is cut off, unknown or not the shortest |
| CanonicalJsonFaults.NumbersExactly | parity/src/canonical_json_adapter.c:241-280 | a number is refused exactly as truncated after a lone sign, as not canonical for a missing digit or a leading zero, and as a schema error beyond 2^53-1 or before a point or exponent |
| CanonicalJsonFaults.ValuesExactly | parity/src/canonical_json_adapter.c:156-318 | a value is refused with a status exactly when good items or members, with keys in order, are followed by a fault with that status |
| CanonicalJsonFaults.RefusedExactly | parity/src/canonical_json_adapter.c:534-555 | the status of every text that is not accepted: empty, too long, marked, not UTF-8, its first fault, or something after the value |
| CanonicalJsonRun.RawKeyOrder | parity/src/canonical_json_adapter.c:143-152 | negative exactly when the left key is before the right one in byte order, zero exactly when they are equal |
| CanonicalJsonRun.Cursor.ParseString | parity/src/canonical_json_adapter.c:72-141 | advances over exactly one string, whose raw text it delimits, or answers the scan's status |
| CanonicalJsonRun.Cursor.ParseArray | parity/src/canonical_json_adapter.c:156-185 | the loop over items advances over exactly one array and restores the depth, or answers the scan's status |
| CanonicalJsonRun.Cursor.ParseObject | parity/src/canonical_json_adapter.c:187-239 | the loop over members, comparing each raw key with the last, advances over exactly one object and restores the depth |
| CanonicalJsonRun.Cursor.ParseNumber | parity/src/canonical_json_adapter.c:241-280 | advances over exactly one number with the range test before each digit, or answers the scan's status |
| CanonicalJsonRun.Cursor.ParseValue | parity/src/canonical_json_adapter.c:282-318 | the recursive descent, which terminates, advances over exactly what the scan consumes, or answers its status |
| CanonicalJsonRun.ValidateCanonicalJson | parity/src/canonical_json_adapter.c:534-555 | answers OK exactly for canonical texts, and otherwise the status `CanonicalJsonFaults.RefusedExactly` states |
| KeyOrder.KeyOrderExactly | parity/src/canonical_json_adapter.c:143-152 | two keys are ordered as by UTF-16 code units exactly when the first characters in which they differ are ordered alike |
| KeyOrder.KeyOrderDiffers | parity/src/canonical_json_adapter.c:143-152 | two pairs of keys that the two orders put in opposite order |
| Structs.PackUnpack | scripts/dev/command_input_v1.py:29-31 | packed values in range unpack to themselves |
| Structs.UnpackPack | scripts/dev/command_input_v1.py:29-31 | unpacked bytes pack to themselves, with every value in range |
| Structs.UnpackedField | scripts/dev/command_input_v1.py:29-31 | unpacking reads each field at its own byte offset |
| CommandInputExact.ActionComplete | scripts/dev/command_input_v1.py:410-442 | an encoded action the builder admits is read back, with what follows it |
| CommandInputExact.ActionSound | scripts/dev/command_input_v1.py:410-442 | an action the parser accepts is one the builder admits, and its bytes are its encoding |
| CommandInputExact.ParseComplete | scripts/dev/command_input_v1.py:336-450 | everything the builder assembles parses to the header and actions it was built from |
| CommandInputExact.ParseSound | scripts/dev/command_input_v1.py:336-450 | every accepted stream is what the builder assembles from the parsed header and actions |
| CommandInputExact.ParseExact | scripts/dev/command_input_v1.py:336-508 | a stream parses to a header and actions exactly when it is what the builder makes of them and the expected identity agrees |
| CommandInputExact.ParseInjective | scripts/dev/command_input_v1.py:336-450 | streams with the same header and actions are the same bytes |
| CommandInputExact.Schedule | scripts/dev/command_input_v1.py:313-333 | sequence numbers count up from zero and the schedule never goes back |
| CommandInputExact.TrueMaxima | scripts/dev/command_input_v1.py:446-450 | the maxima in an accepted prefix bound every action's step and tick and are attained |
| CommandInputExact.SubmaskBits | scripts/dev/command_input_v1.py:318-319 | the flag test admits exactly the flags all of whose bits are allowed, for integers of either sign |
| CommandInputLayout.ActionExactly | scripts/dev/command_input_v1.py:461-484 | an action's bytes are exactly those with every field at its offset, the payload after 48 bytes and zeros up to a multiple of eight |
| CommandInputLayout.BuildsExactly | scripts/dev/command_input_v1.py:313-333 | the builder succeeds exactly when header, counts and sizes are within the limits and every action has its rule's version, native id and length, only allowed flag bits, its position as sequence number, a schedule not before its predecessor's, and integers that fit |
| CommandInputLayout.AssembledExactly | scripts/dev/command_input_v1.py:485-508 | the built bytes are exactly those laid out with literal magics and codes, counts, maxima, header, actions, and the digest of everything before it |
| CommandInputLayout.StreamExactly | scripts/dev/command_input_v1.py:336-450 | a stream parses to a header and actions exactly when they obey these rules, the expected identity agrees, and the stream is laid out so |
| CommandInputLayout.BuildFailsExactly | scripts/dev/command_input_v1.py:453-484 | building fails with a packing error exactly when the first bad action breaks no rule but holds an integer its field cannot; every other failure is a codec error |
| CommandInputRun.ParseActions | scripts/dev/command_input_v1.py:405-442 | the loop with its cursor terminates and gives the actions of the region, or fails as the specification does |
| CommandInputRun.ParseCommandInput | scripts/dev/command_input_v1.py:336-450 | answers the specified parse of the whole stream |
| CommandInputRun.BuildActions | scripts/dev/command_input_v1.py:461-484 | the loop gives the encoded region, or the first fault it meets |
| CommandInputRun.BuildCommandInput | scripts/dev/command_input_v1.py:453-508 | succeeds exactly on valid headers and actions within the limits; the closing self-check never fails, and parsing the result gives the inputs back |
| CommandRegistry.CheckOperands | scripts/dev/command_input_v1.py:251-268 | accepts exactly operands with existing widths and counts and distinct names that follow one another and end at the payload's end |
| CommandRegistry.GoodTiles | scripts/dev/command_input_v1.py:251-268 | accepted operands tile the payload: every byte belongs to exactly one operand and no operand leaves it |
| CommandRegistry.OperandsExactly | scripts/dev/command_input_v1.py:251-268 | operands are accepted for a size exactly when they have existing widths and counts, names of their own, start where the one before ends, and end at the size |
| CommandRegistry.OperandsTilePayload | scripts/dev/command_input_v1.py:222-268 | in an accepted registry every entry's operands tile its payload |
| CommandRegistry.ValidateRegistry | scripts/dev/command_input_v1.py:216-277 | accepts exactly registries with strictly increasing positive types, distinct names and native ids, and good entries |
| CommandRegistry.RegistryExactly | scripts/dev/command_input_v1.py:216-277 | the registries accepted, entry by entry and operand by operand |
| CommandRegistry.RulesFromRegistry | scripts/dev/command_input_v1.py:291-310 | succeeds exactly on accepted registries whose entries all name their flags: one rule for each entry under its type and no others; the test for a repeated type never fires |
| Disks.ParentOfExtended | scripts/dev/archive_completed.py:177-178 | a name extended by a suffix without slashes stays in its directory |
| Disks.SyncDirectoryFates | scripts/dev/archive_completed.py:58-63 | after a directory sync each of its names has one possible fate, and no other name a new one |
| AtomicWrite.FillTemporary | parity/src/tape_reader.c:1066-1094 | with any interruptions and short writes, either the closed temporary holds all bytes durably or exactly one call failed; nothing but the temporary's content changes |
| AtomicWrite.Promote | parity/src/tape_reader.c:1095-1133 | from link to closed directory: the destination is untouched or the whole new file at every moment, and on success both names have one durable fate |
| AtomicWrite.CleanUp | parity/src/tape_reader.c:1135-1148 | the failure path leaves exactly the names it could not remove |
| AtomicWrite.WriteAtomic | parity/src/tape_reader.c:1023-1156 | success exactly when no call failed, with the exact bytes durable at a path that was free and no temporary; one failed call leaves all names as they were; after more, what is left is exactly what the failure path could not remove; at every moment and at the end no existing file's bytes, durability or other names have changed, and the destination is old or whole |
| AtomicWrite.CrashNeverTears | parity/src/tape_reader.c:1023-1156 | after a crash at any moment the path is the whole new file or something it could have been without the call |
| AtomicWrite.SuccessSurvives | parity/src/tape_reader.c:1095-1133 | a crash after success leaves the path with the exact bytes and no temporary |
| ArchiverSafety.NamesApart | scripts/dev/archive_completed.py:177-178 | originals, archives and partial archives of different files never share a name |
| ArchiverSteps.CheckKeeps | scripts/dev/archive_completed.py:191-197 | reading back establishes that the partial archive decompresses to the original |
| ArchiverSteps.SyncParentKeeps | scripts/dev/archive_completed.py:206-218 | the directory sync makes the archive's name durable (or the removal), and keeps the invariant of every file |
| ArchiverSteps.SyncFilesystemKeeps | scripts/dev/archive_completed.py:269-269 | the file-system sync makes all archives of a batch and their names durable, and keeps the invariant of every file |
| ArchiverSteps.SyncLinesKeeps | scripts/dev/archive_completed.py:270-273 | the journal flush of a batch makes its recovery lines durable, and keeps the invariant of every file |
| ArchiverSteps.RemoveKeeps | scripts/dev/archive_completed.py:214-217 | removing an original whose recovery line is durable keeps the invariant of every file |
| ArchiverRecovery.NextKeeps | scripts/dev/archive_completed.py:171-291 | every step, of any file in any interleaving, keeps the invariant |
| ArchiverRecovery.RemovedOnlyWhenRecoverable | scripts/dev/archive_completed.py:204-217 | on every run, once a file's name is gone or could be gone after a crash, its archive is durable, decompresses to it and has a durable journal line |
| ArchiverRecovery.CrashSafe | scripts/dev/archive_completed.py:171-317 | at every moment of every run, batched or not, whatever a crash leaves, each planned file is intact, or its name is free and restoration passes all its checks and gives exactly its bytes |
| Restoration.FindVerified | scripts/dev/archive_completed.py:297-297 | finds the first verified line of the file |
| Restoration.CheckArchive | scripts/dev/archive_completed.py:295-308 | the checks before writing pass exactly for a recorded, unchanged archive, and give what it decompresses to |
| Restoration.RestoredExactly | scripts/dev/archive_completed.py:294-308 | the checks give some content exactly when the first verified line of the file names its archive, which is there with the recorded hash and size and decompresses to that content, of the recorded hash and size |
| Restoration.CopyOut | scripts/dev/archive_completed.py:310-314 | copied chunk by chunk, the new file ends whole and flushed; nothing but its content changes on the way |
| Restoration.Restore | scripts/dev/archive_completed.py:294-317 | succeeds exactly when all checks pass and the name is free, with exactly the recorded bytes; nothing but that one new file changes at any moment; otherwise nothing changes |
| Restoration.InterruptedRestore | scripts/dev/archive_completed.py:309-314 | wherever a restoration is stopped, a crash leaves archive and checks as they were, and nothing in the way but the file it made |
| Restoration.FinishedRestore | scripts/dev/archive_completed.py:309-317 | a crash after a finished restoration leaves the whole file, or the name free and the file restorable |
| Restoration.TornRestore | scripts/dev/archive_completed.py:309-314 | an interrupted restoration may leave any content under the name |
| ArchiverRun.Machine.Do | scripts/dev/archive_completed.py:171-291 | one more step of a run is a run |
| ArchiverRun.Compress | scripts/dev/archive_completed.py:171-207 | the statements up to the published archive are steps of the machine about one file; it raises exactly when the file is not the planned one, an archive name is taken or the compressed content does not read back, and otherwise keeps the file exactly when nothing is saved; the names, contents and journal it leaves are stated for each ending |
| ArchiverRun.ArchiveOne | scripts/dev/archive_completed.py:171-219 | the undeferred `archive_one` raises exactly when the file is not the planned one, an archive name is taken or the compressed content does not read back; otherwise it retains the file exactly when nothing is saved, and else removes it, with the archive under its name and both lines in the journal |
| ArchiverRun.ApplySingly | scripts/dev/archive_completed.py:259-261 | the loop with batch size one, whatever the pool cancels after an exception, is a run of the machine; it reports success exactly when no file of the run meets the raising condition, and then every file is archived or retained as its content decides |
| ArchiverRun.ApplyBatch | scripts/dev/archive_completed.py:263-283 | a batch is a run of the machine: all archives flushed, then all lines, then the removals; it succeeds exactly when no file of it meets the raising condition, and then every file is archived or retained as its content decides |
| Credit.StreamRows | scripts/dev/audit_credit.py:19-22 | a stream is the rows of one environment in time order |
| Credit.Reconstruct | scripts/dev/audit_credit.py:14-29 | refuses incomplete layouts; otherwise each advantage is the backward recurrence over the row's own environment, and each return adds the row's own value |
| Credit.CreditStream | scripts/dev/audit_v2_reward.py:20-34 | the single-stream pass is the recurrence over the rounded inputs |
| Credit.OneEnvironment | scripts/dev/audit_v2_reward.py:20-34 | with one environment and rounding as the identity, both passes compute the same advantages |
| Credit.NeverMixes | scripts/dev/audit_credit.py:19-24 | rows of other environments change no result |
| Credit.AdvantageClosed | scripts/dev/audit_credit.py:19-24 | the recurrence is the closed weighted sum of all later deltas of the environment |
| Credit.WeightCut | scripts/dev/audit_credit.py:24-24 | the weights are powers of discount times trace weight up to the first row that does not continue, and zero after it |
| Credit.ReturnIsDiscountedReward | scripts/dev/audit_credit.py:23-29 | with trace weight one and chained values a return is the discounted reward up to the boundary plus the discounted bootstrap there |
| AssetPotential.Open | scripts/dev/asset_potential_v2.py:18-24 | a ledger exists exactly for a discount in [0, 1] and a horizon from 1 to 512 |
| AssetPotential.Ledger.Apply | scripts/dev/asset_potential_v2.py:26-48 | refuses exactly closed or exhausted ledgers and unacceptable transitions; otherwise one step whose range check never fires, keeping the ledger between zero and the decision count and the balance of discounted returns |
| AssetPotential.Ledger.ReturnKept | scripts/dev/asset_potential_v2.py:34-43 | terminal episodes keep their native discounted return exactly; others gain the discounted final potential, at most one for each decision |
| AssetPotential.DiscountedSnoc | scripts/dev/asset_potential_v2.py:39-43 | a discounted sum grows by the discounted last reward |
| AssetPotential.ShapingTelescopes | scripts/dev/asset_potential_v2.py:34-43 | the discounted sum of all shaping is the discounted last potential less the first, from any potential |
| Candidates.CheckedCandidateData | scripts/dev/audit_action_inputs_v2.py:41-55 | accepts exactly tensors of the right size with a binary mask whose legal rows, target and family are the labelled ones |
| Candidates.RowLayout | scripts/dev/audit_action_inputs_v2.py:41-55 | the byte offsets of a row's features, parameters, mask and family |
| Candidates.CheckedExactly | scripts/dev/audit_action_inputs_v2.py:41-55 | a labelled tensor is accepted exactly when its mask holds zeros and ones, the rows shown are those with a one, in order, and the row taken is one of them with the recorded family, one of twelve |
| Candidates.ExchangeInvolution | scripts/dev/audit_action_inputs_v2.py:111-117 | the exchange is a family-preserving bijection of the legal rows, its own inverse |
| Candidates.ExchangeKept | scripts/dev/audit_action_inputs_v2.py:111-123 | the moved tensor has the same mask and families, passes the same checks, and has the same exchange |
| Candidates.ExchangeTwice | scripts/dev/audit_action_inputs_v2.py:111-123 | moving twice restores the original bytes |
| CandidatesRun.GroupByFamily | scripts/dev/audit_action_inputs_v2.py:114-116 | the dictionary holds each family's legal rows in order |
| CandidatesRun.Permutation | scripts/dev/audit_action_inputs_v2.py:113-117 | the dictionary built family by family pairs the k-th row from the front with the k-th from the back |
| CandidatesRun.CopyRecord | scripts/dev/audit_action_inputs_v2.py:119-122 | three slice assignments replace exactly one record |
| CandidatesRun.ReverseLegalRows | scripts/dev/audit_action_inputs_v2.py:111-123 | the rewritten buffer holds every record at its exchanged row and nothing else changed; it passes the same checks |
| CandidatesRun.ReverseTwice | scripts/dev/audit_action_inputs_v2.py:111-123 | applied to its own answer it gives the original bytes |
| Predictions.UniqueExactly | scripts/dev/audit_action_inputs_v2.py:144-154 | the target is uniquely greedy exactly when it is the greedy row and nothing is nearly tied with it |
| Predictions.LegitimateExactly | scripts/dev/audit_action_inputs_v2.py:131-143 | a prediction passes exactly when it is a distribution over the legal rows, up to a hundred-thousandth, whose greedy row is one of the most likely |
| Predictions.AssessExactly | scripts/dev/audit_action_inputs_v2.py:143-154 | every field of the result, row by row: runner-up, margin, ties, near ties within a millionth, exactness and uniqueness |
| Predictions.SumExchanged | scripts/dev/audit_action_inputs_v2.py:136-140 | exchanging rows does not change the total probability |
| Predictions.LegitimateExchanged | scripts/dev/audit_action_inputs_v2.py:131-143 | a prediction passes the checks exactly when the exchanged one does |
| Predictions.OrderDoesNotMatter | scripts/dev/audit_action_inputs_v2.py:126-154 | for exchanged rows the result has the same probabilities, runner-up, margin and flags, the same original greedy row, and the same ties under the exchange |
| Predictions.ExchangeSymmetric | scripts/dev/audit_action_inputs_v2.py:111-117 | the exchange of the legal rows is one the result does not depend on |
| Crc32c.TableStep | scripts/dev/bridge_validation.py:30-30 | eight bit steps are a table entry for the low byte and a shift of the rest |
| Crc32c.CrcTable | scripts/dev/bridge_validation.py:11-18 | entry k of the table is k after eight bit steps |
| Crc32c.Crc32c | scripts/dev/bridge_validation.py:27-31 | the table-driven loop computes the bit-at-a-time checksum |
| Crc32c.KnownChecksum | scripts/dev/bridge_validation.py:11-31 | the checksum of `123456789` is E3069283, as for every CRC32C |
| Crc32c.StepsInjective | scripts/dev/bridge_validation.py:14-16 | bit steps lose nothing: different registers stay different |
| Crc32c.FeedWord | scripts/dev/bridge_validation.py:29-30 | up to four bytes act on the register as one word |
| Crc32c.BurstDetected | scripts/dev/bridge_validation.py:27-31 | any change confined to four consecutive bytes, one byte included, changes the checksum |

## Left out

- Error texts, offsets in error records, allocation failures, memory mapping, ABI struct checks and C API null checks: only statuses and reported records are modelled.
- Header members: scanning for keys, digests and identity spans; the header is opaque bytes with a status and ten identity strings given from outside. `otrl_validate_canonical_header` is not part of this model.
- The generated registry rows of parity/src/field_schema.c: any sequence of rows sorted by id stands for them.
- Text fields of comparison results (labels, backends, digests) and of the JSON report.
- `promote_stream_file` of the minimizer: its protocol is that of the atomic write; the minimized bytes are modelled as written.
- The minimizer's streaming of the output in pieces: the digest is taken over the whole covered bytes.
- Termination of system calls that are interrupted forever: an outcome script is finite.
- Paths that name the same file in different ways, symbolic links, permissions and time stamps; a fingerprint is inode and size, and producers are stopped, as the archiver demands of its users.
- The archiver's completion markers, host checks, plan building, progress printing and counters; its file-name patterns beyond prefix and suffix; more than one file system.
- A torn last journal line: lines are appended atomically.
- Restoration.Restore: hashing and decompression are functions, so the check after writing cannot fail; path resolution checks are left out.
- The archiver starts with the originals and their names durable, and with no name waiting for a flush (`Archiver.Init`): the producers have finished and their files have reached the disk.
- ArchiverRun.ApplySingly: the files are worked on one after another, where the pool has two workers; the machine, and with it every safety result, covers all interleavings. Which files a cancelled pool had already begun is a parameter.
- ArchiverRun.ApplyBatch: one batch, prepared in order, where the pool has two workers.
- PythonDecoderRun.Decode: reading, re-encoding and checking the header JSON is one check given from outside.
- Credit.Reconstruct: normalized advantages (mean and deviation) are not modelled, and arithmetic is exact.
- Credit.CreditStream: the explained-variance summary and the rounding of targets are not modelled.
- AssetPotential.Ledger.Apply: arithmetic is exact, so the finiteness checks cannot fail.
- Predictions.OrderDoesNotMatter: probabilities are exact, so sums do not depend on the order of addition.
- `native_aliases`: it groups rows by features computed elsewhere.
- `CommandRegistry.ValidateRegistry`: fixed members of the registry document, schema and payload digests and source locators; whether an entry's digest is right is given.
- Command-line tools, manifest and host-profile comparison, the response normalizer of scripts/dev/bridge_validation.py, and everything that runs games, policies or benchmarks.

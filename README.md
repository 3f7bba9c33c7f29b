# SocialInteractions core and the class extractor, in Dafny

This project models three small pieces of a RimWorld mod ("SocialInteractions") and of a
helper script that ships with it, and proves properties of the models.

- **The class extractor** (`extract_class.dfy`, module `ExtractClass`). It finds the first
  line whose stripped text contains `class <name>` and copies lines verbatim from there until
  the running brace depth, counted from the header line, drops to zero or below. If the header
  line alone balances to zero and holds a `{`, it is written on its own and the search starts
  over. `Extract` is a reference definition of the output, stated in terms of the header line
  and the closing line. `ScanLines` is the script's scanning loop, with its `break` and
  `continue`, and it is proved to write exactly `Extract`. The header test is applied to
  each line once. For the proof, its results on all lines are recorded in advance as
  `HeaderMarks`. `Script` is the command-line guard.
  The file system is a map from paths to their lines. A path that is not in the map is an
  input file that does not exist.
- **The dating registry** (`dating_manager.dfy`, module `Dating`). It is a list of dates, each
  with an initiator, a partner and a stage (`Joy`, `Lovin`, `Finished`). It offers lookups by
  pawn, a guarded start, an end that removes every date involving the pawn, and the stage
  machine. The model proves that the registry invariant holds: no pawn is in two dates, and no
  listed date is finished.
- **The speech-bubble queue** (`speech_bubble_manager.dfy`, module `Speech`). This is a FIFO
  queue of bubbles, shown one at a time until each one's end time. When the last bubble of an
  active conversation expires, the conversation is reported finished. `Tick` is the pure
  specification of one game tick, and `Run` chains ticks. The class method `GameComponentTick`
  is proved to follow `Tick`. A ghost history proves that bubbles are shown in the order they
  were enqueued.

`common.dfy` holds `Option` (the stand-in for C# `null` results) and `Pawn`, an opaque
identity. The core only compares pawns for equality.

Two behaviours of the extractor differ from what its purpose suggests. The model follows the
code in both:

- **Stopping.** The first line after the header that brings the depth to zero or below ends
  the capture, whether or not the depth was ever positive. So a header without `{` followed
  by a line without `{` stops after those two lines (`BraceFreeHeaderStopsAfterTwoLines`).
  The capture does not wait for the depth to become positive and then return to zero.
- **Repeated names.** The script is meant to extract the first class of the given name. But
  a header that closes on its own line resets the scan, so a later header with the same name
  starts a second capture (`SingleLineClassRestarts`).

## Data

| type | source | what it is |
|---|---|---|
| Dating.DateStage | SocialInteractions/DatingManager.cs:10-15 | The three stages of a date: `Joy`, `Lovin`, `Finished`. |
| Dating.Date | SocialInteractions/DatingManager.cs:17-29 | A date: initiator, partner and stage. The constructor of the mod always starts in `Joy`, which `StartDate` writes as `Date(initiator, partner, Joy)`. |
| Speech.SpeechBubble | SocialInteractions/SpeechBubbleManager.cs:52-64 | One bubble: speaker, text and duration, stored exactly as given. |
| Verse.Pawn | SocialInteractions/DatingManager.cs:19-20 | A pawn, only compared for identity. |

## Model

| member | source | states |
|---|---|---|
| ExtractClass.ExtractClass | extract_class.py:15-23 | An input path that does not exist gives "not found", and no output is produced. Otherwise the output file holds exactly `Extract` of the input lines. |
| ExtractClass.ScanLines | extract_class.py:24-47 | The scanning loop writes exactly what the reference definition writes. This covers the loop's `in_class` flag, its brace counter, its `continue` after the header and its `break` at the closing line. |
| ExtractClass.Script | extract_class.py:49-53 | The usage message is shown if and only if `argv` does not hold exactly three arguments after the script name. Otherwise the extraction runs on `argv[1]`, `argv[2]` and `argv[3]`. |
| ExtractClass.Extract | extract_class.py:23-47 | The lines written to the output file for the given input lines and class name: the scan from the first line with no class open. It is never longer than the input. |
| ExtractClass.ExtractFrom | extract_class.py:27-47 | What the scan writes from a given line on with no class open: what it writes from the first header at or after that line. It is never longer than the lines left. |
| ExtractClass.ExtractAt | extract_class.py:30-47 | What the scan writes from a header on: the header alone followed by the scan of the later lines when the header closes on itself, otherwise the lines from the header to its closing line. It is never longer than the lines left. |
| ExtractClass.IsHeader | extract_class.py:28-30 | The header test: the stripped line contains `class ` followed by the class name. |
| ExtractClass.Strip | extract_class.py:28 | Python's `str.strip()`: white space is cut from both ends. |
| ExtractClass.Contains | extract_class.py:30 | Python's substring test `pattern in s`. |
| ExtractClass.Delta | extract_class.py:33-34 | What one written line adds to the brace depth: its `{` count minus its `}` count. |
| ExtractClass.ClosesOnHeader | extract_class.py:35 | The header line balances the depth back to zero and holds a `{`, so the class ends on that line. |
| ExtractClass.StripRemovesOuterSpaces | extract_class.py:28 | `Strip(s)` is a slice `s[a..b]` with only white space outside it, and it neither starts nor ends with white space. This is Python's `str.strip()` over the `isspace` characters. |
| ExtractClass.ContainsIffOccurs | extract_class.py:30 | The substring test holds exactly when the pattern occurs at some position of the line. |
| ExtractClass.TrimStartIndex | extract_class.py:28 | `TrimStart(s)` is the suffix of `s` after a run of white space, and it does not start with white space. |
| ExtractClass.TrimEndIndex | extract_class.py:28 | `TrimEnd(s)` is the prefix of `s` before a run of white space, and it does not end with white space. |
| ExtractClass.FindHeader | extract_class.py:27-30 | The index returned is the first line at or after `from` that is marked as a header, or the end of input. No line in between is a header. |
| ExtractClass.BlockEnd | extract_class.py:41-47 | The capture ends just after the first line at or after `j` that brings the depth to zero or below. All depths before it are positive. At end of input nothing ends it. |
| ExtractClass.DepthStep | extract_class.py:33-34 | Copying one more line changes the brace depth by that line's `{` count minus its `}` count. |
| ExtractClass.FirstHeaderFound | extract_class.py:27-30 | When `h` is the first line that passes the header test, the scan's first header is `h`, and the output is what the scan writes from `h` on. |
| ExtractClass.ExtractEmptyIffNoHeader | extract_class.py:23-30 | The output is empty if and only if no line is a header. |
| ExtractClass.ExtractInOrder | extract_class.py:27-47 | Every written line is an input line copied verbatim. The written lines are at strictly increasing input positions, the first being the first header, so nothing before that header is written. |
| ExtractClass.ExtractFromInOrder | extract_class.py:27-47 | The same, for a scan that starts at any input position. |
| ExtractClass.StopsAtClosingLine | extract_class.py:41-47 | When the first header does not close on itself, the output is the contiguous run from the header to the first later line that brings the depth to zero or below, and nothing after it. |
| ExtractClass.UnterminatedCopiesToEnd | extract_class.py:27-47 | When the depth never drops to zero after the header, every line from the header to end of input is written. |
| ExtractClass.BraceFreeHeaderStopsAfterTwoLines | extract_class.py:30-47 | A header without `{` followed by a line without `{` ends the output after those two lines. |
| ExtractClass.SingleLineClassRestarts | extract_class.py:35-38 | A first header that balances to zero and holds a `{` is written alone, and the rest of the output is the extraction from the following lines: a later header starts a new capture. |
| ExtractClass.ExtractFromShift | extract_class.py:27-47 | Scanning from position `from + j` of the input is the same as scanning from position `j` of its suffix starting at `from`. |
| Dating.FirstIndex | SocialInteractions/DatingManager.cs:88-91 | The index returned is the first date that involves the pawn, or the list length when none does. |
| Dating.RemoveInvolving | SocialInteractions/DatingManager.cs:79 | A date survives exactly when it was in the list and does not involve the pawn. |
| Dating.Involves | SocialInteractions/DatingManager.cs:79 | The pawn is the date's initiator or its partner, the match used by removal and by every lookup. |
| Dating.RemoveInvolvingAppend | SocialInteractions/DatingManager.cs:79 | Removal works element by element: on a list made of two parts it is the removal on each part, joined. So all other dates stay, in their order, for any list. |
| Dating.RemoveNothing | SocialInteractions/DatingManager.cs:79 | Removing by a pawn that no date involves leaves the list unchanged. |
| Dating.RemoveOnlyThatDate | SocialInteractions/DatingManager.cs:79 | When one date alone involves the pawn, removal drops exactly that date and keeps the others in their order. |
| Dating.RemoveKeepsInvariant | SocialInteractions/DatingManager.cs:79 | Removal keeps "no pawn in two dates" and "no finished date listed". |
| Dating.RestageKeepsInvariant | SocialInteractions/DatingManager.cs:135 | Moving a date to a stage other than `Finished` keeps the registry invariant. |
| Dating.RemoveIgnoresStage | SocialInteractions/DatingManager.cs:163-182 | Setting a date's stage just before ending it does not change what the end leaves behind. |
| Dating.StartKeepsInvariant | SocialInteractions/DatingManager.cs:38-41 | Adding a `Joy` date between two pawns that are on no date keeps every pawn in at most one date. |
| Dating.EndUndoesStart | SocialInteractions/DatingManager.cs:35-81 | Ending the date of either pawn of a date just started gives back the registry as it was before the start. |
| Dating.DatingManager.GetDateWith | SocialInteractions/DatingManager.cs:88-91 | The result is none if and only if no date involves the pawn. Otherwise it is the first date in list order that does. |
| Dating.DatingManager.IsOnDate | SocialInteractions/DatingManager.cs:83-86 | True if and only if some listed date has the pawn as initiator or partner. |
| Dating.DatingManager.GetPartnerOnDateWith | SocialInteractions/DatingManager.cs:93-101 | The result is none if and only if the pawn is on no date. Otherwise the found date's two pawns are the given pawn and the result. Under the invariant this holds for every date involving the pawn. |
| Dating.DatingManager.GetInitiatorOfDateWith | SocialInteractions/DatingManager.cs:103-111 | The result is none if and only if the pawn is on no date. Otherwise it is the initiator of the first date in list order that involves the pawn, and under the invariant the initiator of every such date. |
| Dating.DatingManager.StartDate | SocialInteractions/DatingManager.cs:23-47 | When neither pawn is on a date, exactly one date (initiator, partner, `Joy`) is appended. Otherwise the list is unchanged. The invariant is kept. |
| Dating.DatingManager.EndDate | SocialInteractions/DatingManager.cs:49-81 | A no-op when the pawn is on no date. Otherwise every date involving the pawn is removed. Afterwards the pawn is on no date, and the invariant is kept. |
| Dating.DatingManager.AdvanceDateStage | SocialInteractions/DatingManager.cs:113-185 | With no date, nothing changes. From `Joy` without lovin' allowed, nothing changes. From `Joy` with lovin' allowed and a bed, the stage becomes `Lovin`. From `Joy` with lovin' allowed and no bed, the date is finished and removed. From `Lovin`, the date is finished and removed. From `Finished`, nothing changes. The invariant is kept. |
| Dating.DatingManager.FinishAndEnd | SocialInteractions/DatingManager.cs:163-182 | The date is marked `Finished` and then ended, so all dates involving the pawn are removed. The invariant is kept. |
| Speech.Tick | SocialInteractions/SpeechBubbleManager.cs:20-44 | One tick at time `now`, on values. The bubble put up, if any, followed by the queue left, is the old queue. A bubble put up is visible. Reporting "finished" needs an active conversation and clears it, and an inactive conversation stays inactive. |
| Speech.VisibleBubbleStays | SocialInteractions/SpeechBubbleManager.cs:24 | A visible bubble whose end time has not come stays up, and the tick changes nothing. |
| Speech.ExpiredBubbleReplaced | SocialInteractions/SpeechBubbleManager.cs:24-43 | An expired bubble is hidden. When another bubble waits, that bubble is put up in the same tick, until `now` plus its duration. |
| Speech.FinishedWhenLastBubbleExpires | SocialInteractions/SpeechBubbleManager.cs:24-34 | "Conversation finished" is reported if and only if a visible bubble has just expired, the queue is empty and a conversation was active. Reporting it clears the active flag. |
| Speech.ShowsFrontWhenIdle | SocialInteractions/SpeechBubbleManager.cs:37-43 | A bubble is dequeued if and only if none is visible after expiry and the queue is non-empty. It is the front bubble, it becomes visible, and it ends at `now` plus its duration. Otherwise the queue and the end time are untouched. |
| Speech.RunShowsInQueueOrder | SocialInteractions/SpeechBubbleManager.cs:37-43 | Over any run of ticks, the bubbles put up, followed by those still waiting, are the original queue: FIFO order, at most one bubble per tick. |
| Speech.FinishesAtMostOnce | SocialInteractions/SpeechBubbleManager.cs:27-33 | Over any run of ticks, an active conversation is reported finished at most once, and an inactive one never. |
| Speech.InactiveStaysInactive | SocialInteractions/SpeechBubbleManager.cs:27-29 | Once a conversation is inactive, no run of ticks reports it finished or makes it active again. |
| Speech.SpeechBubbleManager.Enqueue | SocialInteractions/SpeechBubbleManager.cs:46-63 | Exactly one bubble, with the given speaker, text and duration, is appended to the back of the queue. Nothing else changes, and the FIFO invariant is kept. |
| Speech.SpeechBubbleManager.GameComponentTick | SocialInteractions/SpeechBubbleManager.cs:20-44 | The new fields, the finished report and the bubble put up are exactly `Tick` of the old fields. The FIFO invariant (shown, then queued, equals enqueued) is kept. |
| Speech.SpeechBubbleManager.constructor | SocialInteractions/SpeechBubbleManager.cs:11-15 | The queue starts empty, nothing is visible, the end time is 0 and no conversation is active. |
| Dating.DatingManager.constructor | SocialInteractions/DatingManager.cs:33 | The registry starts empty, which satisfies the invariant. |

## Left out

- File opening, UTF-8 decoding and `print` in the extractor: the input file is its list of
  lines, the output is the list of lines written, and the error and usage messages are the
  `InputNotFound` and `UsageShown` results.
- Input errors other than a missing file: `open` can also fail with a permission error or
  because the path is a directory, and `readlines()` can fail to decode the text. The script
  catches only `FileNotFoundError`, so these stop it with an uncaught exception. They are not
  modelled: every path in the file map can be read.
- Failures when opening or writing the output file: they are I/O and are not modelled.
  `readlines()` keeping line terminators does not matter here, because terminators are white
  space to `strip()` and contain no braces.
- Date objects are references in the mod, and job drivers hold them. The model keeps dates as
  values in the list, and the in-place stage assignment replaces the list element. Aliasing
  through other holders of a `Date` is not modelled.
- `CanHaveLovin` (opinion, mood and random roll) is the boolean `canLovin`. The bed search
  (owned beds, `FindBedFor`) is the boolean `bedFound`.
- Job ending and starting, hediff removal, interaction handling, `GetDateEndSubject` and
  `Log.Message` calls inside `StartDate`, `EndDate` and `AdvanceDateStage` are engine side
  effects and are left out.
- Null pawns and the `date.Partner != null` checks: pawns are always present in the model.
- `Time.time` and the float durations are integers, so float rounding is not modelled. The
  `onConversationFinished` callback is the `finished` result of a tick. Its null check is not
  modelled.
- `MoteMaker.ThrowText` is the bubble the tick returns.
- The static fields of `DatingManager` and `SpeechBubbleManager` are the fields of one object
  each.
- Other callers pass extra `Enqueue` arguments. Only the three-argument `Enqueue` is modelled.
- `isConversationActive` is a public field that other code sets. Only the changes made by the
  tick are modelled.
- `Speech.Run` chains ticks with nothing enqueued in between. Interleaving with `Enqueue` is
  covered by the class invariant `Valid`, not by `Run`.

# Verified models of the repository's algorithms and state machines

This project models, in Dafny, the pieces of the repository that compute something hard: how the QuickSearch plugin
decides which files a filter shows, the plugin's field cache, the network players' handshake of VirtuaNES, the queued
random-access phase of CrystalDiskMark, the transfer workers of DLL.Downloader, the 8-bit picture doublers and the PNG
writer of VirtuaNES, and the progress arithmetic of FreeArc's 7-Zip client. `dafny verify dfyconfig.toml` checks it.

| file | models |
|---|---|
| Utils, Bytes | an option type, minimum, bytes and 32-bit sizes |
| Text, Levenshtein, SearchModes | edit scripts and the modified Levenshtein matrix; simple, pinyin and scattered search; how the modes compare |
| Split, MatchFile | the filter language `w1 w2\|w3/w4`, its head (negation, mode letter, threshold) and its loops |
| WdxCache | the per-file row of plugin values and the first-in first-out store of rows |
| Handshake | both roles of the handshake as one interleaved step system over two byte channels, and the handlers |
| AioBench, Xorshift | the completion callback with its ledger of requests; the generator and the offsets |
| Scheduler | what the transfer workers share: a list of jobs, served in turn, started, paused and cancelled by other threads |
| Upload, FileCopy, MemoryFetch | three kinds of transfer on it, with short reads and writes and failing seeks |
| PixelDoubler | the scalar and the MMX row loops against one description of the surface |
| PngFormat, PngCheck, PngWriter | the chunk format and a reader written from RFC 2083; the check value as a polynomial remainder; the writer, and its round trip |
| ProgressScale | the shift-normalised product and quotient |

Conventions. A method follows its source's loops and exits and is tied by its contract to a function or to a
property; the lemmas are about those. Wide characters are 16-bit code units, bytes are 0..255, and 32-bit sizes and
products are reduced explicitly where they can wrap. Separators and the negation letter are single letters and each mode
letter is one or none, as the settings loader insists (tcmatch.cpp:73-92). Foreign code enters as a parameter: the pinyin relation, the
system's lower-casing, the regular-expression engine, the content plugins (deterministic), zlib's compressor (a result
that fits and that inflates to its input), and, in the step systems, the outcome of every system call. The parallel
vectors of the downloader are one sequence of job records; the copies of its pause, cancel and registration code, one for
each kind of transfer, are one class.

## What the code does differently from what one might expect

- The server stores the selected latency in an unsigned byte before it compares it with 0, so the lower clamp never
  acts and "nothing selected" (-1, which NetPlayDlg.cpp:478 does not reject on the server) becomes 8 frames.
  `LatencyClampedExactlyWhen` says for which selections the intended clamp to 0..8 comes out.
- Agreement of the handshake needs version texts of equal length. `AcceptsExactlyWhen` says for which scripts a side can
  be brought to accept, and `DisagreesExactlyWhen` when that can be another game. Version numbers of decimal digits always
  have texts of equal length (`DecimalVersionsAgree`); a digit of ten prints as two letters, and a server of version 0x091
  can accept a client of version 0x09A (`OtherVersionsCanDisagree`). The client compares version letters as signed
  characters, so from 128 on none agrees (`HighLettersNeverAccept`).
- A file stays in the field cache with all its values unless it is evicted, but the file evicted while it is also the
  one being retired comes back with its current row only: `StoredSlots` says exactly what is stored, and `EvictionForgets`
  is a run in which a stored file loses its values although it has just been looked up.
- A request that completes without data, or is reported as cancelled, raises no error (`SilentLossIsReachable`) and leaves
  the benchmark waiting for ever (`DrainSucceedsOrHangs`). An error is not final: `SuccessPossibleExactlyWhen` says when success can still follow it.
- A short write makes the copying worker lose bytes, since it reads sequentially; such a job can never show its full
  count, and only of sources without two different bytes is the copy always a prefix (`DestinationIsPrefixExactlyWhen`).
- The upload moves the read position of its file before each read, but by a signed 32-bit distance (Downloader.CXX:1038):
  from 2 GB on the move fails, the file is read on from where it stands, and a pause between the read and the write or a
  short write loses bytes there too. `RemoteIsPrefix` says for which uploads the server always holds a prefix.
- Both keep only the low 32 bits of the file size, so "all bytes transferred" means the whole file exactly below 4 GB.
- The PNG writer answers for what it has handed to the C library. A failure to store the rest when the file is closed is
  ignored (Macro.h:12), so the answer can be true without a picture on the disk. Over everything a library may do with a
  buffer of a given size, that can happen exactly for pictures that exceed the room by at most the buffer, large ones
  included, and a false answer is never wrong: `AnswerCanBeWrongExactlyWhen`.
- A negation letter in front flips the answer only if something follows the filter's head, and a second one does not undo
  the first: `NegationIsComplement`, `NegationIsNotUndone`.
- The scaled progress can exceed the packed size, at most twofold, exactly for packed sizes above 2^31 and below 2^61 + 2^30
  (`NeverOvershootsExactlyWhen`; three of three bytes against 4 GB show 6 GB, `CanOvershoot`); from there on it can go
  back (`NeverGoesBackExactlyWhen`).

The plugin object and the replacement table are rebuilt whenever the settings are read again
(tcmatch.cpp:93, 116, 129-131), so one case setting holds for the life of a cache; the cache model takes it as fixed.
The cache needs `wdx_cache >= 0`: with a negative limit the code would take the front of an empty list.

## Model

| member | source | states |
|---|---|---|
| Levenshtein.CellIsLowerBound | Code/CPP/QuickSearch eXtended/tcmatch.cpp:258-279 | no edit script, from any place of the name (from 0 when anchored), reaches a place of the matrix for less than its cell |
| Levenshtein.CellIsReached | Code/CPP/QuickSearch eXtended/tcmatch.cpp:258-279 | every cell is the cost of some script whose swaps exchange two truly crossed letters and touch neither first letter |
| Levenshtein.MismatchedSwapIsUseless | Code/CPP/QuickSearch eXtended/tcmatch.cpp:271-276 | the branch that charges for a swap with a mismatch never lowers a cell |
| Levenshtein.CheapestIsOptimal | Code/CPP/QuickSearch eXtended/tcmatch.cpp:263-281 | the minimum over the last column, which never looks at position 0 of the name, is still the cheapest alignment's cost and at most the filter's length |
| Levenshtein.OneEditCostsOne | Code/CPP/QuickSearch eXtended/tcmatch.cpp:249-282 | a filter that differs from the name by one letter replaced, missing or added, or by two neighbours exchanged away from the first letter, is within one edit of it |
| Levenshtein.FillBorders | Code/CPP/QuickSearch eXtended/tcmatch.cpp:256-261 | the borders: a free start anywhere, or a paid one when anchored |
| Levenshtein.ComputeCell | Code/CPP/QuickSearch eXtended/tcmatch.cpp:265-277 | one cell from its neighbours, swap branch included |
| Levenshtein.FillColumn | Code/CPP/QuickSearch eXtended/tcmatch.cpp:264-280 | one column, and the running minimum in the last |
| Levenshtein.LevenshteinDistance | Code/CPP/QuickSearch eXtended/tcmatch.cpp:249-282 | for all strings the result is the exact minimum over all edit scripts, attained by one, and at most the filter's length |
| SearchModes.Find | Code/CPP/QuickSearch eXtended/tcmatch.cpp:294 | the library search gives the first exact occurrence, or -1 when there is none |
| SearchModes.PinYinStringMatch | Code/CPP/QuickSearch eXtended/tcmatch.cpp:227-243 | true exactly when the filter lines up somewhere (at 0 when anchored) with at least one letter differing |
| SearchModes.SimpleSearch | Code/CPP/QuickSearch eXtended/tcmatch.cpp:289-298 | exact search or pinyin search succeeds exactly when the filter occurs as a stretch, each letter equal or a spelling |
| SearchModes.GreedyIsEarliest | Code/CPP/QuickSearch eXtended/tcmatch.cpp:358-364 | the greedy places are never later than those of any other order-preserving embedding |
| SearchModes.ScatteredSearch | Code/CPP/QuickSearch eXtended/tcmatch.cpp:349-366 | one pass succeeds exactly when some embedding exists, starting at 0 when anchored |
| SearchModes.FindInFilename | Code/CPP/QuickSearch eXtended/tcmatch.cpp:286-368 | every mode decides its declarative meaning; unknown modes accept |
| SearchModes.FoundMeans | Code/CPP/QuickSearch eXtended/tcmatch.cpp:286-368 | what a word finds in each mode, on the letters: in a stretch, in order with gaps, by the regular-expression engine, and always in unknown modes; lower-cased first exactly without case sensitivity |
| SearchModes.FilterCaseIsIgnored | Code/CPP/QuickSearch eXtended/tcmatch.cpp:289-355 | without case sensitivity words that lower-case alike find the same, in all modes but regular expressions |
| SearchModes.FilterCaseIsKept | Code/CPP/QuickSearch eXtended/tcmatch.cpp:289-355 | with case sensitivity the answer is the same whatever lower-casing would do |
| SearchModes.OneEditIsFound | Code/CPP/QuickSearch eXtended/tcmatch.cpp:338-346 | in Levenshtein mode with one edit allowed, such a word is found in the name one edit away |
| SearchModes.DistanceZeroIsSimple | Code/CPP/QuickSearch eXtended/tcmatch.cpp:227-298 | no edits allowed is simple search, in both directions |
| SearchModes.SimpleIsStrictest | Code/CPP/QuickSearch eXtended/tcmatch.cpp:286-368 | a simple match is a match within every threshold and a scattered match |
| Split.StringSplit | Code/CPP/QuickSearch eXtended/wdx.cpp:206-219 | cuts at the first or last separator; the two sides and the separator rebuild the text |
| Split.PiecesRebuild | Code/CPP/QuickSearch eXtended/tcmatch.cpp:508-523 | a loop of cuts visits separator-free pieces that rebuild the text, without an empty piece after a final separator |
| Split.PiecesUnique | Code/CPP/QuickSearch eXtended/tcmatch.cpp:508-523 | those two facts determine the pieces |
| MatchFile.AskGroup | Code/CPP/QuickSearch eXtended/tcmatch.cpp:528-535 | the early exit over a group finds a word exactly when some field of the group holds it, asked through the cache |
| MatchFile.MatchWord | Code/CPP/QuickSearch eXtended/tcmatch.cpp:526-537 | the file name counts for the first part only, the group of the part for every part |
| MatchFile.MatchAlternative | Code/CPP/QuickSearch eXtended/tcmatch.cpp:515-543 | the inner loop with its exits holds exactly when every non-empty word is found, only word 0 anchored |
| MatchFile.MatchPart | Code/CPP/QuickSearch eXtended/tcmatch.cpp:509-546 | the middle loop holds exactly when the part is empty or some alternative holds |
| MatchFile.MatchFilter | Code/CPP/QuickSearch eXtended/tcmatch.cpp:505-554 | the outer loop holds exactly when every part holds |
| MatchFile.FilterMeans | Code/CPP/QuickSearch eXtended/tcmatch.cpp:504-554 | for the parts, alternatives and words a filter is composed of: it holds exactly if every part that is not empty has an alternative whose words are each empty or found, in the name for part 0 or in a field of the part's group, only the first word anchored |
| MatchFile.LetterChoosesMode | Code/CPP/QuickSearch eXtended/tcmatch.cpp:468-499 | each mode letter in front chooses its mode and is taken off, the first in order where letters coincide; a threshold digit 1 to 9 is taken off in Levenshtein mode |
| MatchFile.PlainFilterIsRead | Code/CPP/QuickSearch eXtended/tcmatch.cpp:468-499 | a filter that begins with no head letter is all body (but for a threshold digit), in the mode of the override or of the first mode letter left empty, and shows nothing if there is none |
| MatchFile.EmptyFilterIsRead | Code/CPP/QuickSearch eXtended/tcmatch.cpp:458-504 | the empty filter shows everything unless no mode is left for it |
| MatchFile.OneWordIsShown | Code/CPP/QuickSearch eXtended/tcmatch.cpp:504-554 | a one-word filter, on the letters of the word and the name: somewhere or at the beginning as set, at the beginning in begin mode, in order in scattered mode, unchanged for regular expressions |
| MatchFile.ShownMeans | Code/CPP/QuickSearch eXtended/tcmatch.cpp:490-554 | the verdict of a whole filter under the settings: their separators compose it, and their case and anchor settings decide what a word is compared with |
| MatchFile.NameCaseIsIgnored | Code/CPP/QuickSearch eXtended/tcmatch.cpp:493 | without case sensitivity files whose names lower-case alike get the same verdict, except from regular expressions |
| MatchFile.CaseIsKept | Code/CPP/QuickSearch eXtended/tcmatch.cpp:493 | with case sensitivity the verdict is the same whatever lower-casing would do to names and filters |
| MatchFile.Matcher.Match | Code/CPP/QuickSearch eXtended/tcmatch.cpp:458-555 | the verdict is the meaning of the filter with the plugins asked directly: cache contents never show; the threshold read stays for later filters |
| MatchFile.HeadIsReadBack | Code/CPP/QuickSearch eXtended/tcmatch.cpp:458-499 | a head composed of negation, mode letter and threshold digit is taken apart again, whatever the body |
| MatchFile.NegationIsComplement | Code/CPP/QuickSearch eXtended/tcmatch.cpp:458-504 | for every filter, a negation letter alone shows nothing and otherwise flips the answer of the plain reading if and only if something follows the head |
| MatchFile.NegationIsNotUndone | Code/CPP/QuickSearch eXtended/tcmatch.cpp:458-467 | the plain reading is the filter's own unless it begins with a negation letter, and a second negation letter leaves the first in force |
| MatchFile.SimpleFilterIsStrictest | Code/CPP/QuickSearch eXtended/tcmatch.cpp:504-554 | a file a whole filter finds by simple search is found with edits or gaps allowed |
| WdxCache.ReplaceChars | Code/CPP/QuickSearch eXtended/wdx.cpp:131-140 | in-place replacement is letter by letter; inserted text is not replaced again, also when it is empty |
| WdxCache.ReplacedByParts | Code/CPP/QuickSearch eXtended/wdx.cpp:131-140 | a text is replaced stretch by stretch |
| WdxCache.ValueMeans | Code/CPP/QuickSearch eXtended/wdx.cpp:409-464 | case sensitivity leaves the plugin's text as it is, otherwise it is lower-cased; replacement comes afterwards and its text keeps its case; an error is the empty text |
| WdxCache.DirectoryOf | Code/CPP/QuickSearch eXtended/wdx.cpp:333 | the directory of a file is what stands before its last backslash |
| WdxCache.AnnounceKeepsStructure | Code/CPP/QuickSearch eXtended/wdx.cpp:334-374 | the stored files are exactly the queue's, without repeats, at most limit + 1 |
| WdxCache.AnnounceKeepsCoherence | Code/CPP/QuickSearch eXtended/wdx.cpp:330-380 | every filled slot still tells what the plugins say about its own file |
| WdxCache.LookupKeepsAll | Code/CPP/QuickSearch eXtended/wdx.cpp:405-464 | a lookup keeps both invariants and answers the plugin's value |
| WdxCache.StoredSlots | Code/CPP/QuickSearch eXtended/wdx.cpp:334-374 | exactly which values an announcement leaves in the store |
| WdxCache.EvictionForgets | Code/CPP/QuickSearch eXtended/wdx.cpp:334-374 | with a limit of one, a stored, announced and looked-up file loses its values at the next announcement |
| WdxCache.RunKeepsAll | Code/CPP/QuickSearch eXtended/wdx.cpp:330-464 | both invariants after every run of announcements and lookups |
| WdxCache.CacheIsTransparent | Code/CPP/QuickSearch eXtended/wdx.cpp:330-464 | after any run, with evictions, directory changes and re-announcements, a lookup answers what the plugins say about the last file |
| WdxCache.LookupCaseIsIgnored | Code/CPP/QuickSearch eXtended/wdx.cpp:330-464 | after any run without case sensitivity, plugins whose texts lower-case alike are answered alike |
| WdxCache.LookupCaseIsKept | Code/CPP/QuickSearch eXtended/wdx.cpp:330-464 | after any run with case sensitivity the answer does not depend on lower-casing, and without replacements is the plugin's own text |
| WdxCache.Wdx.MergeIntoCache | Code/CPP/QuickSearch eXtended/wdx.cpp:359-363 | the loop updates a stored row with the filled slots only |
| WdxCache.Wdx.WriteOldValues | Code/CPP/QuickSearch eXtended/wdx.cpp:353-374 | eviction, then update or creation of the retired file's row |
| WdxCache.Wdx.Create | Code/CPP/QuickSearch eXtended/wdx.cpp:330-380 | the whole new state of an announcement, and the invariants |
| WdxCache.Wdx.Fetch | Code/CPP/QuickSearch eXtended/wdx.cpp:409-464 | a plugin call stores and returns the normalised value; an error is the empty text |
| WdxCache.Wdx.Get | Code/CPP/QuickSearch eXtended/wdx.cpp:405-465 | the answer is the plugin's value whichever of the three places it came from |
| Handshake.StepKeepsInv | Code/CPP/VirtuaNes/NetPlayDlg.cpp:233-299 | every send, receive or failure keeps: received is a prefix of sent, the channel holds the rest, only a rejected byte disagreed |
| Handshake.AcceptedMeansEchoed | Code/CPP/VirtuaNes/NetPlayDlg.cpp:233-271 | over all interleavings and failures, a side that accepts has seen its version and checksum at the head of its peer's stream |
| Handshake.CrcBytesDetermineCrc | Code/CPP/VirtuaNes/NetPlayDlg.cpp:260-261 | the four bytes sent determine the checksum |
| Handshake.HighLettersNeverAccept | Code/CPP/VirtuaNes/NetPlayDlg.cpp:349-360 | a client whose version text has a letter from 128 on accepts in no run, since it compares with signed characters |
| Handshake.Agreement | Code/CPP/VirtuaNes/NetPlayDlg.cpp:233-305 | equal-length versions: one acceptance means equal versions and checksums, and whoever accepts sets the server's clamped latency |
| Handshake.LatencyClampedExactlyWhen | Code/CPP/VirtuaNes/NetPlayDlg.cpp:273-279 | for which selected latencies the byte conversion still gives the clamp to 0..8 |
| Handshake.AcceptsExactlyWhen | Code/CPP/VirtuaNes/NetPlayDlg.cpp:233-311 | some run brings a side to accept exactly if its compared bytes head the longer script of its peer and the peer agrees until it has sent them |
| Handshake.DisagreesExactlyWhen | Code/CPP/VirtuaNes/NetPlayDlg.cpp:233-311 | that can be another version or image exactly if, besides, the version texts differ in length |
| Handshake.TextTellsVersion | Code/CPP/VirtuaNes/NetPlayDlg.cpp:226-230 | version numbers of decimal digits print as 22 letters that determine them |
| Handshake.TextIsSpelled | Code/CPP/VirtuaNes/NetPlayDlg.cpp:226-230 | the text of version 0x097, letter by letter |
| Handshake.DecimalVersionsAgree | Code/CPP/VirtuaNes/NetPlayDlg.cpp:226-305 | between such versions whoever accepts has the same version and image as its peer and sets the server's clamped latency |
| Handshake.OtherVersionsCanDisagree | Code/CPP/VirtuaNes/NetPlayDlg.cpp:226-271 | the server of version 0x091 can accept a client of version 0x09A with another image |
| Handshake.Lockstep | Code/CPP/VirtuaNes/NetPlayDlg.cpp:233-271 | as long as the bytes agree, both sides can proceed byte by byte |
| Handshake.AtMostTwoInFlight | Code/CPP/VirtuaNes/NetPlayDlg.cpp:233-299 | neither direction holds more than two undelivered bytes |
| Handshake.RunsAreBounded | Code/CPP/VirtuaNes/NetPlayDlg.cpp:233-299 | a run without failures has at most one action for each byte sent and received |
| Handshake.NoDeadlock | Code/CPP/VirtuaNes/NetPlayDlg.cpp:349-407 | without failures, until both sides have finished one of them can act |
| Handshake.RunsEndTogether | Code/CPP/VirtuaNes/NetPlayDlg.cpp:233-311 | every finished run ends with both accepting the same latency, or both rejecting at the first differing byte |
| Handshake.AcceptsExactlyEchoes | Code/CPP/VirtuaNes/NetPlayDlg.cpp:349-413 | alone on a faultless connection a side accepts exactly the peers that echo its bytes and send two more |
| Handshake.EndsExactlyWhen | Code/CPP/VirtuaNes/NetPlayDlg.cpp:233-311 | how a handler ends on a faultless connection: it accepts, rejects at a byte, or fails, each exactly when; without an image it has then sent its version text and no more |
| Handshake.AcceptedHasSent | Code/CPP/VirtuaNes/NetPlayDlg.cpp:233-311 | a handler that accepts had an image and no failed call, and has sent version, checksum lowest byte first, latency and 0 |
| Handshake.ExchangeIsSendThenReceive | Code/CPP/VirtuaNes/NetPlayDlg.cpp:234-245 | one turn of a handler's loop is two steps of the interleaved protocol |
| Handshake.CheckBytes | Code/CPP/VirtuaNes/NetPlayDlg.cpp:260-271 | the compare loop with its exits, at any offset of the stream |
| Handshake.SettleLatency | Code/CPP/VirtuaNes/NetPlayDlg.cpp:272-305 | the last two exchanges, for both roles |
| Handshake.OnNetwork | Code/CPP/VirtuaNes/NetPlayDlg.cpp:204-318 | a whole handler ends, and leaves the connection, as the protocol's exchanges do; for want of an image it stops after the version text |
| AioBench.RunKeepsInv | Code/CPP/CrystalDiskMark/DiskBench.cpp:951-1028 | the ledger of requests is kept by every run, and losses are never undone |
| AioBench.AccountBalances | Code/CPP/CrystalDiskMark/DiskBench.cpp:974-1027 | issued = counted + queued + lost in every reachable state, and the queue never exceeds its limit |
| AioBench.SuccessIsSettled | Code/CPP/CrystalDiskMark/DiskBench.cpp:978-985 | success means the flag is down, nothing is queued, and everything issued delivered |
| AioBench.LostMeansNeverSuccess | Code/CPP/CrystalDiskMark/DiskBench.cpp:965-985 | after a refused, broken, cancelled or empty request no later step declares success |
| AioBench.ErrorExactlyWhen | Code/CPP/CrystalDiskMark/DiskBench.cpp:965-1027 | a phase that has not succeeded is in error exactly if some request of it was broken off, refused or taken for failed |
| AioBench.DrainCounts | Code/CPP/CrystalDiskMark/DiskBench.cpp:974-985 | with the flag down each delivery only counts, and the last one decides |
| AioBench.DrainReachesSuccess | Code/CPP/CrystalDiskMark/DiskBench.cpp:806-828 | exactly aioNum - count further deliveries reach success, and that number is the queue's limit |
| AioBench.EmptyQueueKeepsVerdict | Code/CPP/CrystalDiskMark/DiskBench.cpp:811-828 | with everything started and nothing queued the verdict never changes: without one the loop waits for ever |
| AioBench.DrainSucceedsOrHangs | Code/CPP/CrystalDiskMark/DiskBench.cpp:811-828 | a drained phase succeeds if nothing was lost and otherwise runs for ever |
| AioBench.SuccessPossibleExactlyWhen | Code/CPP/CrystalDiskMark/DiskBench.cpp:965-1027 | from any reachable state without success, an error included, success can follow exactly if nothing was lost and something is queued or still to be started |
| AioBench.StaleErrorIsForgotten | Code/CPP/CrystalDiskMark/DiskBench.cpp:1009-1027 | a case: an error taken from a left-over code turns into success |
| AioBench.WaitEndsAtVerdict | Code/CPP/CrystalDiskMark/DiskBench.cpp:806-828 | waiting ends at the first alertable sleep after which the phase is not running, whatever would follow |
| AioBench.AioMsg.AIOCompletionRoutine | Code/CPP/CrystalDiskMark/DiskBench.cpp:951-1028 | the callback's whole effect on the shared record |
| AioBench.AioMsg.Await | Code/CPP/CrystalDiskMark/DiskBench.cpp:806-837 | the waiting loop ends where waiting ends, scores a phase exactly if it then stands in success, and its account is then settled |
| Xorshift.StepIsInvertible | Code/CPP/CrystalDiskMark/DiskBench.cpp:64-69 | the step on four words has an inverse, on both sides |
| Xorshift.StatesNeverMerge | Code/CPP/CrystalDiskMark/DiskBench.cpp:64-69 | different states stay different after any number of steps |
| Xorshift.NeverAllZero | Code/CPP/CrystalDiskMark/DiskBench.cpp:64-69 | from the given seed no number of steps reaches zero |
| Xorshift.FirstDraws | Code/CPP/CrystalDiskMark/DiskBench.cpp:64-69 | the first four numbers drawn |
| Xorshift.Xor128.Draw | Code/CPP/CrystalDiskMark/DiskBench.cpp:64-69 | the in-place step |
| Xorshift.OffsetsAreWholeBlocks | Code/CPP/CrystalDiskMark/DiskBench.cpp:746-757 | offsets can be drawn exactly when the size is no multiple of 4096 MB, and are then whole blocks inside the file, without wrap |
| Xorshift.EveryBlockIsDrawn | Code/CPP/CrystalDiskMark/DiskBench.cpp:746-757 | every whole block of the file is the offset of some draw |
| Scheduler.DoneIsFinal | Code/CPP/DLL.Downloader/Downloader.CXX:369-400 | a job that is complete or cancelled never changes again, whatever kind of transfer it is |
| Scheduler.PausedRests | Code/CPP/DLL.Downloader/Downloader.CXX:967-971 | a paused job is not changed by anything but its resumption or cancellation, pausing it again included |
| Scheduler.PauseHolds | Code/CPP/DLL.Downloader/Downloader.CXX:369-384 | after a pause of an unfinished job, every run without its resumption or cancellation leaves it paused with its work unchanged |
| Scheduler.ResumedIsServed | Code/CPP/DLL.Downloader/Downloader.CXX:964-971 | after a resumption, whatever happens to other jobs, the job's next visit is the worker's turn on its work |
| Scheduler.CancelIsFinal | Code/CPP/DLL.Downloader/Downloader.CXX:386-400 | after a cancellation of an unfinished job, every later run leaves it with complete 2 and its work unchanged |
| Scheduler.OthersDoNotMatter | Code/CPP/DLL.Downloader/Downloader.CXX:964-1090 | in this model what becomes of a job depends on the actions addressed to it alone |
| Scheduler.RunKeeps | Code/CPP/DLL.Downloader/Downloader.CXX:964-1090 | whatever every turn keeps true of a piece of work is kept by every run |
| Scheduler.TurnsMakeProgress | Code/CPP/DLL.Downloader/Downloader.CXX:964-1090 | a job that is only served by full turns stands, in every run, where that number of turns has brought it |
| Scheduler.ChunkMoved | Code/CPP/DLL.Downloader/Downloader.CXX:1028-1056 | a turn that moves a whole chunk takes a transfer from t chunks to t + 1, and the turn after the last completes it |
| Scheduler.Pool.Register | Code/CPP/DLL.Downloader/Downloader.CXX:294-352 | a zero chunk size is answered 0 and changes nothing; otherwise the job is appended, running and untouched, and its number is answered |
| Scheduler.Pool.PauseJob | Code/CPP/DLL.Downloader/Downloader.CXX:369-384 | the answer is true exactly for the number of an unfinished job, which then has the pause asked for and the same work; otherwise nothing changes |
| Scheduler.Pool.CancelJob | Code/CPP/DLL.Downloader/Downloader.CXX:386-400 | the answer is true exactly for the number of an unfinished job, which is then paused, complete 2 and has the same work; otherwise nothing changes |
| Upload.TurnKeepsValid | Code/CPP/DLL.Downloader/Downloader.CXX:1026-1056 | whatever a turn meets, the counts agree, and the server holds a prefix as long as the file stands right or the order is immune to the failing seek |
| Upload.GapNeverShrinks | Code/CPP/DLL.Downloader/Downloader.CXX:1037-1056 | beyond 2 GB the gap between what was read and what was sent never shrinks |
| Upload.TurnEndsExactlyWhen | Code/CPP/DLL.Downloader/Downloader.CXX:972-1056 | what completes an upload (a refused connection, its end, a failed read or write) or pauses it, exactly, and that it then sends nothing |
| Upload.CountsAndBytesAgree | Code/CPP/DLL.Downloader/Downloader.CXX:954-1090 | in every run counts, position and number of bytes sent agree, each write moved between one byte and a chunk, and the server holds the first MovePos bytes below 2 GB and wherever the file stands right |
| Upload.RemoteIsPrefix | Code/CPP/DLL.Downloader/Downloader.CXX:1026-1084 | every run of an order leaves the server with the first MovePos bytes exactly if the source is memory, its size as kept is at most 2 GB, or all its bytes from 2 GB on are equal |
| Upload.FullCountMeansWholeSource | Code/CPP/DLL.Downloader/Downloader.CXX:1026-1056 | a full count means the whole source was sent exactly for sources below 4 GB, failing seeks included |
| Upload.CompletesOnTime | Code/CPP/DLL.Downloader/Downloader.CXX:1026-1084 | an undisturbed upload below 4 GB is complete, the server having the whole source in ceil(size/chunk) chunks, exactly from turn ceil(size/chunk) + 2 on |
| Upload.LostByte | Code/CPP/DLL.Downloader/Downloader.CXX:1037-1056 | beyond 2 GB any later byte of the file can take the place of the next one |
| Upload.ReadChunk | Code/CPP/DLL.Downloader/Downloader.CXX:1028-1041 | the seek, the read, and where a pause stops a turn |
| Upload.SendChunk | Code/CPP/DLL.Downloader/Downloader.CXX:1026-1084 | a turn that moves a chunk |
| Upload.Serve | Code/CPP/DLL.Downloader/Downloader.CXX:967-1088 | one job's turn, exits in order |
| Upload.Round | Code/CPP/DLL.Downloader/Downloader.CXX:964-1090 | a round gives each job exactly one turn |
| FileCopy.TurnKeepsValid | Code/CPP/DLL.Downloader/Downloader.CXX:1224-1266 | the gap between read and stored never shrinks, and while there is none the copy is true |
| FileCopy.TurnEndsExactlyWhen | Code/CPP/DLL.Downloader/Downloader.CXX:1227-1264 | what completes a copy (its end, a failed read) or pauses it, exactly, and that it then copies nothing; any other turn reads something and counts itself |
| FileCopy.FullCountMeansTrueCopy | Code/CPP/DLL.Downloader/Downloader.CXX:1224-1266 | a full count means a true copy exactly below 4 GB, with no assumption on writes |
| FileCopy.ShortWriteNeverFinishes | Code/CPP/DLL.Downloader/Downloader.CXX:1249-1264 | after a short write no run brings the job to its full count |
| FileCopy.DestinationIsPrefixExactlyWhen | Code/CPP/DLL.Downloader/Downloader.CXX:1244-1264 | every run of an order leaves the destination with the first MovePos bytes exactly if there is nothing to copy or all bytes of the source are equal |
| FileCopy.ProgressByTurns | Code/CPP/DLL.Downloader/Downloader.CXX:1224-1266 | whatever happens to others, an undisturbed job's state is a function of its number of turns |
| FileCopy.CompletesOnTime | Code/CPP/DLL.Downloader/Downloader.CXX:1224-1266 | it is complete, and a true copy in ceil(size/chunk) chunks, exactly from turn ceil(size/chunk) + 1 on |
| FileCopy.LostBytes | Code/CPP/DLL.Downloader/Downloader.CXX:1261-1264 | the first byte of the destination can be any byte of the source |
| FileCopy.CopyChunk | Code/CPP/DLL.Downloader/Downloader.CXX:1243-1264 | a turn that moves a chunk |
| FileCopy.Serve | Code/CPP/DLL.Downloader/Downloader.CXX:1227-1264 | one job's turn, exits in order |
| FileCopy.Pass | Code/CPP/DLL.Downloader/Downloader.CXX:1224-1266 | a pass gives each job exactly one turn |
| FileCopy.Passes | Code/CPP/DLL.Downloader/Downloader.CXX:1221-1268 | k passes over all jobs are a run in which each job has k turns; over fresh jobs, each fully served job is complete exactly if k exceeds its number of chunks |
| MemoryFetch.ExtendedIsValid | Code/CPP/DLL.Downloader/Downloader.CXX:944-948 | a chunk copied behind what is there keeps the block equal to the stream so far |
| MemoryFetch.TurnKeepsValid | Code/CPP/DLL.Downloader/Downloader.CXX:833-948 | every turn, the allocating one included, keeps that |
| MemoryFetch.TurnEndsExactlyWhen | Code/CPP/DLL.Downloader/Downloader.CXX:1110-1206 | what completes a download (a refused connection, its end, a failed read) or pauses it, exactly, and that it then receives nothing; the size of the block allocated |
| MemoryFetch.BlockHoldsStream | Code/CPP/DLL.Downloader/Downloader.CXX:1107-1206 | in every run each block is the bytes received followed by zeros, of the size the caller insisted on if any, and the next chunk fits |
| MemoryFetch.FullCountMeansWholeBlock | Code/CPP/DLL.Downloader/Downloader.CXX:1107-1206 | the block is what was received and nothing else exactly when the count shown is the size |
| MemoryFetch.CompletesOnTime | Code/CPP/DLL.Downloader/Downloader.CXX:1107-1206 | an undisturbed download is complete, its block all received in ceil(size/chunk) chunks, exactly from turn ceil(size/chunk) + 2 on |
| MemoryFetch.Fetch.CopyMemory | Code/CPP/DLL.Downloader/Downloader.CXX:1202-1203 | every store lands inside the block, and only the chunk's place changes |
| MemoryFetch.Fetch.Serve | Code/CPP/DLL.Downloader/Downloader.CXX:1110-1206 | one job's turn on a block in memory |
| PixelDoubler.PairWordBytes | Code/CPP/VirtuaNes/Render8bpp.h:106-112 | whatever the register held, the stored word is two source bytes, each twice, with the mask set |
| PixelDoubler.DoubledPair | Code/CPP/VirtuaNes/Render8bpp.h:106-136 | a stored word extends the doubled row by two source bytes |
| PixelDoubler.DoubledQuad | Code/CPP/VirtuaNes/Render8bpp.h:200-209 | a stored quad word extends it by four |
| PixelDoubler.ScalarRow | Code/CPP/VirtuaNes/Render8bpp.h:100-142 | the general-register loop doubles a row and touches nothing else |
| PixelDoubler.MmxRow | Code/CPP/VirtuaNes/Render8bpp.h:194-215 | the MMX loop does the same |
| PixelDoubler.SurfaceIsPixels | Code/CPP/VirtuaNes/Render8bpp.h:91-246 | every byte of the surface: source byte (r/2, c/2) with the row's mask, and bytes beyond twice the width untouched |
| PixelDoubler.DrawnPixel | Code/CPP/VirtuaNes/Render8bpp.h:91-246 | a drawn byte of the surface is its source byte with the bits of its row's mask set, by plain positions |
| PixelDoubler.DrawRows | Code/CPP/VirtuaNes/Render8bpp.h:354-402 | both kinds of row draw the same surface, for every picture, width divisible by 8, stride and pitch |
| PixelDoubler.Render8bpp_Double | Code/CPP/VirtuaNes/Render8bpp.h:91-246 | mask 0x40 in all rows, the same surface with and without MMX |
| PixelDoubler.Render8bpp_DoubleScanline | Code/CPP/VirtuaNes/Render8bpp.h:251-407 | mask 0x40 in even and 0x80 in odd rows, the same surface with and without MMX |
| PngFormat.NetworkOrderInverse | Code/CPP/VirtuaNes/Pngwrite.h:99-105 | the four bytes written read back as the number |
| PngFormat.CrcContinues | Code/CPP/VirtuaNes/Pngwrite.h:130-136 | the check value continued from type to data is that of both together (section 3.4 of RFC 2083) |
| PngCheck.CrcIsRemainder | Code/CPP/VirtuaNes/Pngwrite.h:130-136 | the check value is the remainder of the division by the polynomial of section 3.4 of RFC 2083, done by hand on the message bit by bit |
| PngFormat.ReaderIsExact | Code/CPP/VirtuaNes/Pngwrite.h:116-144 | the reader accepts exactly the streams that are chunks laid out one after the other with their check values, IEND last, and gives those chunks back |
| PngFormat.LayoutIsRead | Code/CPP/VirtuaNes/Pngwrite.h:116-144 | a reader of section 3.2 of RFC 2083 takes a written chunk off a stream, check value accepted |
| PngFormat.TruncatedIsNotRead | Code/CPP/VirtuaNes/Pngwrite.h:49-85 | a stream of chunks that ends early is never read |
| PngWriter.RowsAreRead | Code/CPP/VirtuaNes/Pngwrite.h:34-40 | rows behind filter type 0 read back pixel by pixel (section 6.2 of RFC 2083) |
| PngWriter.PaletteIsRead | Code/CPP/VirtuaNes/Pngwrite.h:66-77 | all 256 colours read back |
| PngWriter.HeaderIsRead | Code/CPP/VirtuaNes/Pngwrite.h:50-64 | width, height and the fixed fields read back |
| PngWriter.ChunksInOrder | Code/CPP/VirtuaNes/Pngwrite.h:49-85 | the file is the signature and exactly IHDR, PLTE, IDAT, IEND with valid check values |
| PngWriter.FileBytes | Code/CPP/VirtuaNes/Pngwrite.h:49-112 | the fixed bytes of every complete file, as numbers: signature, header with depth and colour type, palette head, end chunk with its check value |
| PngWriter.FileSides | Code/CPP/VirtuaNes/Pngwrite.h:50-64 | width and height at bytes 16 to 23, highest byte first |
| PngWriter.CompressedBytes | Code/CPP/VirtuaNes/Pngwrite.h:30-40 | what is compressed, by plain positions: each row a 0 and then the pixels of the bitmap's row |
| PngWriter.RoomIsTenthMore | Code/CPP/VirtuaNes/Pngwrite.h:42 | the compressor is given a tenth more than the data, in whole bytes, and twelve bytes |
| PngWriter.RoundTrip | Code/CPP/VirtuaNes/Pngwrite.h:13-90 | size, palette and every pixel come back, for any stride |
| PngWriter.FilterRows | Code/CPP/VirtuaNes/Pngwrite.h:30-40 | the buffer filled row by row from the strided bitmap |
| PngWriter.File.Write | Code/CPP/VirtuaNes/Pngwrite.h:107-112 | a write through the library's buffer, to a disk with limited room |
| PngWriter.File.Close | Code/CPP/VirtuaNes/Pngwrite.h:87-95 | closing hands on the rest as far as it fits, and says nothing |
| PngWriter.File.WriteChunk | Code/CPP/VirtuaNes/Pngwrite.h:116-144 | up to four writes in their order, stopping at the first that fails, the check value continued from type to data |
| PngWriter.JoinedPieces | Code/CPP/VirtuaNes/Pngwrite.h:24-90 | the writes of a call, joined, are the complete file |
| PngWriter.PutAllOutcome | Code/CPP/VirtuaNes/Pngwrite.h:24-90 | after any run of writes all is on the disk or kept back, or the disk is full with what came first; an idle library accepts exactly what exceeds the room by at most the buffer |
| PngWriter.StoredPictureIsRead | Code/CPP/VirtuaNes/Pngwrite.h:24-95 | what fitted on the disk reads back as the picture if it was all of it, and otherwise not at all |
| PngWriter.WrittenOutcome | Code/CPP/VirtuaNes/Pngwrite.h:24-95 | the disk holds as much as fitted; what fits is answered true, and a true answer exceeds the room by at most the buffer |
| PngWriter.StoredBytes | Code/CPP/VirtuaNes/Pngwrite.h:24-95 | what is on the disk begins with the eight bytes of the signature, and when it is complete ends with the end chunk |
| PngWriter.AnswerCanBeWrongExactlyWhen | Code/CPP/VirtuaNes/Pngwrite.h:24-95 | over everything a library with this buffer may do, the answer can be wrong exactly for pictures that exceed the room by at most the buffer, and is then true without a picture on the disk |
| PngWriter.WritePicture | Code/CPP/VirtuaNes/Pngwrite.h:24-95 | the call writes the pieces, closes and answers as stated there; the file reads back as the picture exactly if it was attempted and fitted, begins with the signature bytes, and when complete ends with the bytes of the end chunk |
| PngWriter.AnswersTrueOnFullDisk | Code/CPP/VirtuaNes/Pngwrite.h:82-90 | every picture that exceeds the room by at most the buffer is reported as written by an idle library |
| ProgressScale.NormalizeVals | Code/CPP/FreeArc/Client7z.cpp:732-740 | both values shifted by the least number that brings the first to 2^31 |
| ProgressScale.MyMultDiv64 | Code/CPP/FreeArc/Client7z.cpp:742-749 | the scaled value, within 64 bits |
| ProgressScale.Quotient | Code/CPP/FreeArc/Client7z.cpp:746-748 | the product of normalised values fits in 64 bits; a zero total counts as one |
| ProgressScale.ExactWhenSmall | Code/CPP/FreeArc/Client7z.cpp:742-749 | exact for operands up to 2^31; a total of zero counts as one |
| ProgressScale.AtMostTwice | Code/CPP/FreeArc/Client7z.cpp:742-749 | never more than twice the packed size while not past the end |
| ProgressScale.NeverOvershootsExactlyWhen | Code/CPP/FreeArc/Client7z.cpp:742-749 | the packed size is never passed exactly for packed sizes that are not shifted or shifted more than thirty times |
| ProgressScale.NeverGoesBackExactlyWhen | Code/CPP/FreeArc/Client7z.cpp:742-749 | the result is monotone in the unpacked progress, across changes of shift, exactly for packed sizes shifted at most thirty times |
| ProgressScale.FewShiftsOvershoot | Code/CPP/FreeArc/Client7z.cpp:742-749 | for each packed size shifted one to thirty times, a progress at its end that shows more |
| ProgressScale.ManyShiftsGoBack | Code/CPP/FreeArc/Client7z.cpp:742-749 | for each packed size shifted more often, one byte more that shows less |

## Left out

- Matcher.Match: starts behind the preset handling, the file-or-folder filter and the path cutting of MatchFileW.
- The contents of the pinyin table, regular-expression mode (CRegexpT is not part of this model), and the ini file.
- WdxCache.Wdx.Fetch: the formatting of plugin values by type is part of the deterministic plugin parameter, as are the directory-change messages.
- Handshake.OnNetwork: the dialog controls and the time measured; a time-out, a lost connection and a send error are one kind of failure. The two handlers differ only in how they compare version letters and whose latency counts, and are one method.
- AioBench.AioMsg.AIOCompletionRoutine: the 32-bit counters do not wrap; timing and scores; requests still queued when a failed phase closes the file.
- Upload.Serve: a turn is atomic except for a pause arriving before the read or before the write; a failed write stores nothing; error codes (stale across jobs) and handles.
- FileCopy.Serve: directory creation in File_Copy, and handles.
- Scheduler.Pool.Register: opening the source and copying a memory block, after which a refusal can come too.
- MemoryFetch.Fetch.Serve: allocation succeeds; downloads into files, which keep no block. The FTP and HTTP loops share one model. Runs over many jobs are on values; the class is one job.
- PixelDoubler.MmxRow: a 64-bit register is its eight packed bytes; the words of the scalar path are 32-bit vectors. The undoubled renderers are special cases of the row loops.
- PngWriter.WritePicture: opening the file; a write that does not fit is taken to fill the disk, so nothing is stored after it; both allocations are one condition; the compressor's room is computed in integers where the code uses a floating-point factor.
- ProgressScale.NeverGoesBackExactlyWhen: claims nothing once the unpacked progress is past the total.
- Outside the model: SMART table compaction and the health verdict of CrystalDiskInfo, recent-host lists, AVI writing, FtpdMin and all dialogs.

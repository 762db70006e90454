# An eMMC power-loss tester, modelled and verified

The tester writes a replayable pattern to an eMMC device, loses power on purpose,
and after each boot verifies what the device kept. This project models the parts of
it that decide whether a verdict can be trusted, and proves properties of them.

| files | what they model |
|---|---|
| `LogWindow`, `LogModel`, `LogVisits` | which verified requests the crash log keeps: a window of 20 requests around each crash, per verification step and visit to it |
| `VerifyLog` | the same log as linked request lists with growing arrays of pointers to crashed requests |
| `LogCodec`, `WordBytes`, `SdCard`, `LogStore`, `StaleLog`, `VerifyStore` | saving the log to the SD card as tagged words and loading it back, first as functions, then as the methods that do it |
| `Well512`, `SectorCount` | the random generator of the write pattern and the request sizes drawn from it |
| `Interleaving`, `Pattern` | the interleaved write pattern, and its replay by the verifier |
| `ExtraCheck`, `ExtraVerification` | the page-header check that runs after the replay, and which parts of a zone it is asked to check |
| `Findings` | what that check finds and files, said of each page by itself |
| `PowerLoss`, `Prediction`, `FalseAlarm`, `ZoneCheck`, `BlamedDevice` | what a power loss leaves for the checks to find, the request that is predicted to be the last one missing, and when a device that did nothing wrong is blamed |
| `Rtc64` | the 64-bit tick made from a wrapping 32-bit counter and a clock in seconds |
| `BitTricks`, `Statistics` | the request statistics |
| `Precondition`, `Uecc` | filling and scanning the device before a test, and the read-back tests |
| `RunLoop` | the boot, verify, write loop and the stored crash word |
| `Types`, `DivMod` | fixed-width values and division facts shared by the others |

Where the source updates fields or walks arrays in loops, the model has classes and
methods, and each method is proved against a function or predicate on values. The
lemmas are about those functions. Sectors, ticks and latencies are unbounded
integers; 32-bit wrap-around is written out where the source relies on it or can hit
it (seeds and generator words as 32-bit vectors, the tick counter, chunk sizes, the
random write offset). Unbounded sums stand for the source's 64-bit ones.

The page test, the chunk search and the verdict numbers of `plr_verify.c`, the header
writer of `plr_common.c` and the conversions of `plr_tick_conversion.c` follow those
files; the table cites them through the code that uses them.

Results that are conditions rather than plain guarantees:

* Loading a saved step reads on while it sees the separator word, so it needs the
  words after the last record to stop it. `LogCodec.LoadShowsIff` and
  `LogStore.StepLoadsIff` give the exact condition. The buffer is not cleared between
  steps: `StaleLog.StaleRoundTrip` is a run whose zone check, saved in exactly one
  sector, comes back with a crash of the replay added.
* Leaving a verification step and coming back to it makes two lists that reload as
  one (`LogModel.RevisitMerges`); `LogWindow.ReloadSameIff` says exactly which lists
  survive.
* An interleaving pass leaves the first half when it begins with an oversized
  request that reaches past it (`Interleaving.TilesIff`).
* The scan of `test_case/plr_dpin0014.c` that leaves out the test area takes that
  area to begin at sector 0 and skips whole buffers; `Uecc.OutsideIff` says when it
  decides whether the outside matches.
* The random write leaves the test area, or divides by zero, unless the area is
  larger than a page (`Uecc.RandomInsideIff`), and the sequential write leaves it
  unless one buffer fits (`Uecc.SequentialContainedIff`).
* The erase check divides by the seconds it took (`Precondition.CheckEraseZeroCondition`),
  and does not look at a last partial page.
* A writing phase can start over a stored crash word only when a test case fails
  without recording a verdict (`RunLoop.WritesOverCrashIff`).
* The extra verification can mark pages of a healthy device. It checks a zone for the
  older loop count from the zone's first sector on, or from 1024 sectors behind the
  predicted last request, even when requests on their way reach further. On a device
  that writes whole pages, `FalseAlarm.NoFalseAlarmIff` says exactly when no choice of
  written pages is marked: when no chunk of the older pass begins among them with
  another page on its way behind its first page or at its mirror page.
  `BlamedDevice.HealthyDeviceBlamed` is such a loss of two cached passes, from the
  first seed on, which neither the replay nor the check of the zone's checksums takes
  for a crash. `FalseAlarm.SameRequestsHide` and `PowerLoss.TornInOrderIsClean` are
  losses that never cause it.
* The predicted last packed or cached request is the end of its group only before the
  first flush and for a flush request itself; otherwise it is one request too early
  (`Prediction.PredictedIff`).
* `read_uecc_verify` of `test_case/plr_dpin0013.c` scans from sector 0, not from the
  test area, so after random writes it passes for sure only when it reads nothing of
  that area (`Uecc.AlwaysPassesIff`).
* The header's comment has its checksum cover 36 bytes from the magic number on; the
  code covers the 32 bytes from the sector number to the next start sector, and so
  does the model.
* The comments on the request sizes in `plr_write_rand.c` give ranges the code does
  not have in every detail; `SectorCount.SectorsImage` follows the code.

## Model

| member | source | states |
|---|---|---|
| LogWindow.RetentionRefinement | plr_verify_log.c:404-504 | For any history of one step, the lists that hold a crash, end to end, are exactly the requests at most 20 positions from a crashed one, in order and once each; an open list without a crash holds at most 21 |
| LogWindow.ReloadSameIff | plr_verify_log.c:507-549 | Lists made by the window come back from a reload with the same boundaries exactly when every saved list but the last ends in 20 normal requests |
| LogWindow.ReloadRun | plr_verify_log.c:404-549 | Re-windowing what one run of a step kept changes nothing: same crash lists, same boundaries |
| LogWindow.FirstListDecides | plr_verify_log.c:76-107 | For a step visited once, looking at the first list only tells whether the step has any crash, as the printing code assumes |
| LogModel.LogRetention | plr_verify_log.c:404-504 | With steps in order, each step of the whole log keeps exactly the retained requests of that step's own history |
| LogVisits.VisitRetention | plr_verify_log.c:404-504 | Whatever the order of steps, a step's crash lists are those of separate runs of its visits, one after another, so it keeps the retained requests of each visit |
| LogModel.RunLogInv | plr_verify_log.c:404-504 | Whatever the order of steps, every list in the log is one the window closes again, or leaves open again, when replayed alone |
| LogModel.StepReloadsIff | plr_verify_log.c:404-549 | For any order of steps, when a step's lists reload with their boundaries |
| LogModel.RevisitMerges | plr_verify_log.c:412-417 | Going back to an earlier step makes two crash lists that reload as one |
| LogCodec.MakeEntry | plr_verify_log.c:212-241 | A filed request has a page map only if it crashed, with one mark for each whole page |
| LogCodec.StreamAt | plr_verify_log.c:551-587 | The words of a step are records one behind the other, each the separator 0xFFFFFF22, first sector, size and status, and for a crash with marks one word for each of them |
| LogCodec.LoadShowsIff | plr_verify_log.c:519-587 | Loading a saved step gives requests that print the same exactly when the words behind the last record are not the separator and, if that record is a crash without marks, cover its pages with no expected mark |
| LogCodec.LoadExactIff | plr_verify_log.c:519-587 | When no crashed request lacks marks at the end, the saved requests come back identical exactly when a word that is not the separator follows |
| LogCodec.StaleRecordsAppear | plr_verify_log.c:519-587 | Whole records behind the words of a step, up to the next word that is not the separator, are read as if they belonged to it |
| WordBytes.StoredWords | plr_verify_log.c:566-569 | Words stored at the front of a byte buffer are read back, followed by the words of the rest |
| WordBytes.BytesOfWord | plr_verify_log.c:566-569 | Word i lies in the four bytes from 4 * i on, least significant first |
| SdCard.SaveFirstAt | plr_err_handling.c:242-258 | A dump changes exactly its own extent, sector by sector, the last one padded with zeros |
| SdCard.DumpRoundTrip | plr_err_handling.c:202-260 | Loading a dump gives its bytes, then zeros to the end of its last sector, then what memory held before, in ceil(length / 512) sectors |
| SdCard.HeldAfterOther | plr_err_handling.c:231-260 | A dump elsewhere leaves a stored dump in place |
| SdCard.HeldByte | plr_err_handling.c:242-258 | Byte i of a dump is byte i % 512 of its sector i / 512, and zeros fill the last sector |
| SdCard.ClearedAt | plr_err_handling.c:168-190 | Clearing n sectors makes exactly those from the given one on zero and leaves the rest |
| SdCard.Card.SaveCrashDump | plr_err_handling.c:231-260 | The loop writes what the specification of a dump says and returns the number of sectors |
| SdCard.Card.LoadCrashDump | plr_err_handling.c:202-229 | The loop leaves in memory what the specification of a load says |
| SdCard.Card.ClearSectors | plr_err_handling.c:168-190 | The loop zeroes exactly the given sectors |
| LogStore.ExtentsDisjoint | plr_verify_log.c:589-688 | For any log sizes the extents of the three steps and the index sector are pairwise disjoint |
| LogStore.SaveLogHolds | plr_verify_log.c:641-688 | After a save all three step images and the index are on the card, whatever it held before |
| LogStore.SavedSteps | plr_verify_log.c:641-688 | The steps lie behind one another from sector 11 on, an empty one taking a sector number too, and sector 10 holds their three starts and byte lengths in order |
| LogStore.SavedElsewhere | plr_verify_log.c:641-688 | Every other sector from 10 to 59 is zero after a save, and every one outside those is as it was |
| LogStore.StepLoadsIff | plr_verify_log.c:507-549 | One saved step, read into any buffer, gives exactly its requests if and only if its bytes do not end on a sector boundary or the buffer's old content there does not begin with the separator |
| LogStore.PaddedStops | plr_verify_log.c:519-549 | Zero padding stops the reader when the bytes do not end on a sector boundary and the last saved request has its marks |
| LogStore.SaveLoadPadded | plr_verify_log.c:641-718 | When every step's bytes end inside a sector and its last saved request has its marks or needs none, the round trip below holds with anything in the read buffer |
| LogStore.SaveLoadRoundTrip | plr_verify_log.c:641-718 | Saving a verification with steps in order and loading it back, on any card and with any read buffer whose reading stops at each step's end, restores every step's crash lists with their boundaries: printing the same, and identical when the marks are there |
| LogStore.NoIndexKeepsLog | plr_verify_log.c:700-704 | Unless the first word of sector 10 is 11 the log stays as it is, and the buffer holds that sector in front |
| LogStore.BlankCardKeepsLog | plr_verify_log.c:700-704 | So it does on a card whose sector 10 is zero |
| StaleLog.StaleStepFiled | plr_verify_log.c:507-549 | When the second step's records end a sector exactly where one of the first step's records begins, loading it on top of the first files the rest of that step's requests as well |
| StaleLog.StaleRoundTrip | plr_verify_log.c:690-718 | A run in order whose saved log, on any card and with any read buffer of two sectors, comes back with a list that was not there: the replay found a request wrong and confirmed it by another, the check of a whole zone found one page wrong, and that other request is shown as a second crash of the zone check |
| VerifyLog.ChainAcyclic | plr_verify_log.c:404-431 | A chain of requests never visits a node twice |
| VerifyLog.RequestList.RecordCrash | plr_verify_log.c:457-502 | The pointer array grows by threes and holds exactly the crashed nodes in order; no store is out of range |
| VerifyLog.RequestList.Insert | plr_verify_log.c:419-502 | Linking a request keeps the chain valid and leaves the nodes the window says, and tells when the list is complete |
| VerifyLog.LogManager.InsertList | plr_verify_log.c:370-402 | A fresh list is linked behind a step's others and changes none of them |
| VerifyLog.CrashLog.StartOpenList | plr_verify_log.c:348-402 | A new empty list becomes the open one, with both counters at zero |
| VerifyLog.CrashLog.InsertRequestList | plr_verify_log.c:404-504 | On the heap, inserting a request is the log's insertion on values, for the step and all others; without an open list nothing changes |
| VerifyLog.CrashLog.VerifyInsertRequestInfo | plr_verify_log.c:212-241 | Building and filing one verified request is the log's insertion of its entry |
| VerifyLog.CrashLog.VerifyDestroyLog | plr_verify_log.c:60-67 | Every step is empty and no list is open |
| VerifyLog.CrashLog.VerifyInitLog | plr_verify_log.c:43-58 | The log is the initial one: one empty open list in the first step |
| VerifyStore.ShapeInvariant | plr_verify_log.c:348-504 | In every valid log each list is a chain of exactly requestCount different nodes ending at tail, and its pointer array lists exactly its crashed nodes in chain order with a capacity of their number rounded up to threes |
| VerifyStore.InsertKeepsWellFormed | plr_verify_log.c:226-240 | Filing requests keeps every page map as long as its request, which saving relies on |
| VerifyStore.SaveRequestList | plr_verify_log.c:551-587 | The walk over one list stores exactly its records behind what the buffer holds |
| VerifyStore.SaveManagerList | plr_verify_log.c:589-638 | The walk over a step saves exactly the requests of its crash lists and moves on by the sectors used |
| VerifyStore.VerifySaveLog | plr_verify_log.c:641-688 | Saving the heap structure leaves on the card what the specification says for the log it shows |
| VerifyStore.LoadRequestList | plr_verify_log.c:507-549 | The reading loop files exactly the parsed requests of a step |
| VerifyStore.VerifyLoadLog | plr_verify_log.c:690-718 | Loading leaves the log and the buffer the specification says; and, without naming it, unless the first word of sector 10 is 11 the log and its open list are unchanged and the buffer has that sector in front |
| Well512.UnstepStep | plr_write_rand.c:32-48 | The explicit inverse undoes a generator step on index and 16 words; the other two generators of plr_rand_sector.c are instances of the same class |
| Well512.StepUnstep | plr_write_rand.c:32-48 | The step undoes its inverse, so it is a bijection |
| Well512.AfterInjective | plr_rand_sector.c:32-84 | Two different generator states stay different after any number of draws |
| Well512.NeverAllZero | plr_write_rand.c:18-48 | From every seed and after any number of draws some state word is not zero |
| Well512.KnownDraws | plr_write_rand.c:18-48 | The first three draws of seed 23, computed from its sixteen words |
| Well512.MaskBits | plr_write_rand.c:18-48 | Every bit of the mask that the shifted word can reach |
| Well512.Generator.WriteSeed | plr_write_rand.c:18-30 | Seeding overwrites the whole state with the seed's sequence |
| Well512.Generator.WriteRand | plr_write_rand.c:32-48 | A draw in place is one step, and returns the word it stored last |
| SectorCount.SectorsImage | plr_write_rand.c:51-159 | Each of the seven size distributions gives exactly the whole pages of its range, or 8 and the doublings of 16, and nothing else |
| SectorCount.SizeShares | plr_write_rand.c:51-159 | How often each size comes over one period of draws, for each kind |
| SectorCount.RandomSectorCount | plr_write_rand.c:130-159 | A known kind takes one draw and gives a possible size; any other takes none and gives 0 |
| Interleaving.TilesIff | test_case/plr_dpin0013.c:398-459 | From any start in the first half the large requests cover it to its end with no gap and no overlap, each followed by its mirror page, exactly when the first request is at most 1024 sectors or does not reach past the half |
| Interleaving.MovedStartTiles | test_case/plr_dpin0013.c:411-415 | A start in the second half is moved to the first and tiled from there |
| Interleaving.PassPaired | test_case/plr_dpin0013.c:419-456 | Every pass is pairs of a large request that begins in the first half and its mirror page, one pair behind the other up to the end of the half; it is empty only when it starts behind both halves |
| Interleaving.PassSized | test_case/plr_dpin0013.c:411-456 | The first large request has the size given, or the first drawn one when the start was moved; every other has 1024 sectors while the cache fills and else the next drawn size; only the end of the half cuts one |
| Interleaving.PassDraws | test_case/plr_dpin0013.c:449-455 | How many sizes a whole pass draws: one for a moved start and one behind every large request that the cache does not decide |
| Interleaving.DrawnAre | test_case/plr_dpin0013.c:449-455 | Of n large requests in a row all are drawn without the cache, and with it those numbered above the flush cycle |
| Interleaving.CoveredOnce | test_case/plr_dpin0013.c:419-456 | Each sector of the tiled range is in exactly one large request, and no other sector is in any |
| Interleaving.MirrorsApart | test_case/plr_dpin0013.c:430-447 | In a page-aligned pass the mirror pages lie in the second half and no two meet |
| Interleaving.PassFlushWindow | plr_pattern.c:30-41 | After n requests of a cache-on pass n / cycle were flush requests, and none of the last n % cycle was |
| Pattern.HalvesFit | plr_case_info.c:6-19 | Both halves fit in the test area and leave less than two zones unused |
| Pattern.ZoneOfSector | plr_case_info.c:64-87 | A sector inside a zone is counted in that zone |
| Pattern.PatternInterleaving | test_case/plr_dpin0013.c:398-459 | The loop ends and issues the requests of the pass, whose sizes, order and draws `Interleaving` describes: all of them when the operation succeeds, and else up to the first failure, which it returns; a whole pass takes that many draws |
| Pattern.WritePass | plr_pattern.c:291-303 | A write pass issues the sequence of the seed it records |
| Pattern.VerifyPass | plr_pattern.c:196-218 | The first verify pass issues the sequence of the recorded seed, start and size |
| Pattern.RecordedSized | plr_pattern.c:291-303 | The sizes of a recorded pass follow from its start, size and seed: the k-th drawn one is 64 + 8 * (draw k % 121) |
| Pattern.ReplayIsPrefix | plr_pattern.c:196-302 | Each pass issues the recorded sequence up to its own first failure, so one issued a prefix of what the other did, and a verify pass that accepts everything written issues at least all of it |
| ExtraCheck.PassStamps | plr_common.h:166-188 | Whatever was on the device, a pass leaves every page of every chunk and every mirror page with its own header, loop count and index |
| ExtraCheck.PassIsCheckable | test_case/plr_dpin0013.c:398-465 | A page-aligned pass with a first size of at most 1024 sectors is one the results below apply to |
| ExtraCheck.FoundIsChunk | test_case/plr_dpin0013.c:494-499 | In a stamped area the search gives the start of a chunk at or behind where it began |
| ExtraCheck.CheckIsClean | test_case/plr_dpin0013.c:467-573 | No false alarm: after a complete pass the check of any part of the half ends and marks no page |
| ExtraCheck.PassChangesBefore | test_case/plr_dpin0013.c:398-459 | A pass that got as far as some sector changed nothing from that sector on, nor in its mirror image |
| ExtraCheck.CheckBehindIsClean | test_case/plr_dpin0013.c:467-573 | After a power loss with anything at all left before sector `behind`, the check that expects the older loop count marks nothing from a sector on where no page before `behind` carries that count |
| ExtraCheck.NeverMarksIff | test_case/plr_dpin0013.c:506-570 | A walk that starts at a chunk of the older pass marks nothing, for every content at all of both halves before `behind`, exactly when it begins at or behind that sector |
| ExtraCheck.CleanScanIsRight | test_case/plr_dpin0013.c:508-570 | Nothing is missed: on any device, a walk that marks no page proves own sector, checksum, loop count and index for every page it covers, and the first three for the mirror page of its chunk |
| Findings.SoundIff | test_case/plr_dpin0013.c:523-525 | A page passes when it is blank, or carries one of the two magic numbers, its own sector and a checksum that is right |
| Findings.PassWrites | plr_common.h:166-188 | Page k of a request has, after a pass, exactly these header words: sector, boot, loop, number, start, pages, k, and the flush magic number when the request is committed |
| Findings.FindIs | test_case/plr_dpin0013.c:494-499 | The search gives the start named by the first chunk-first page with the loop count that no page before it, since the last without a boot count, was written in an earlier boot; and nothing exactly when there is none |
| Findings.ScanWalked | test_case/plr_dpin0013.c:506-570 | A walk files, for chunks that lie one behind the other, the mirror page with its sector and 8 sectors, then each page k of the chunk with sector s + 8 * k and the size of the chunk, each a crash exactly when that page is not right in its chunk; and where it ends or gets stuck |
| Findings.CheckWalked | test_case/plr_dpin0013.c:467-573 | The whole check files nothing unless there is a first hit, and else what the walk from the start it names files |
| ExtraCheck.VerifyFindChunk | test_case/plr_dpin0013.c:494-499 | The search in 8 MB reads gives what the page-by-page search gives |
| ExtraCheck.VerifyCustomizing | test_case/plr_dpin0013.c:467-573 | The nested loops file exactly the findings of the check, which `Findings.CheckWalked` and `Findings.ScanWalked` describe page by page, in order, and tell whether the walk ended or stopped at a chunk that claims no page or more than the buffer holds |
| ExtraVerification.ExtraVerification | test_case/plr_dpin0013.c:575-646 | The calls made in a zone are exactly its parts, in order, and file what those do, up to the first that does not end |
| ExtraVerification.PartIsCall | test_case/plr_dpin0013.c:575-646 | The calls of a zone are these parts: before the loss up to its sector with the current loop count; behind it, from the end of the request, from 1024 sectors behind the predicted last one, or from the zone's first sector, to the zone's end with the count before; none of the older count in a zone before the loss, nor in its zone when the predicted last one is elsewhere |
| ExtraVerification.CleanIsCovered | test_case/plr_dpin0013.c:575-646 | Nothing is left out: when all checks of a zone end and mark nothing, every page of every part is right and carries the loop count of that part, from the first chunk found in it on |
| ExtraVerification.MadeIsCovered | test_case/plr_dpin0013.c:575-646 | So it is when none of what the method returns is marked or unended |
| ExtraVerification.ExtraIsClean | test_case/plr_dpin0013.c:575-646 | No false alarm after a power loss: in every zone all checks end and mark nothing, as long as no page with the older loop count lies between the start of its check and where the older pass is untouched |
| PowerLoss.LossIsHealthy | test_case/plr_dpin0013.c:398-459 | Whatever the requests on their way left in their pages, the older pass is untouched from the end of the last large one of them on |
| PowerLoss.BehindOfLoss | test_case/plr_dpin0013.c:584-617 | Where that is for each kind of loss: at the end of the interrupted large request, at the end of the large request of an interrupted mirror page, and, with packed or cached requests, at most 1024 sectors behind the predicted last one when the prediction is not too early |
| PowerLoss.LossIsPredicted | test_case/plr_dpin0013.c:584-585 | The predicted last request of such a loss is the one that counting its requests predicts |
| PowerLoss.CleanWhenSafe | test_case/plr_dpin0013.c:601-643 | Whatever the requests on their way left in their pages, no page of a zone is marked in the first pass, when only a mirror page was lost, or when older pages are checked not at all or only from where nothing was on its way |
| PowerLoss.TornInOrderIsClean | test_case/plr_dpin0013.c:601-643 | Without packed or cached requests, when the interrupted request was written page by page up to some sector and no further, nothing is marked in any zone |
| FalseAlarm.NoFalseAlarmIff | test_case/plr_dpin0013.c:601-643 | When each page on its way is as before or as written, the first request that is wrong being one of them, no such device is marked in a zone exactly when no chunk of the older pass begins there, among those pages and where they are checked, with its mirror page or the page behind its first one on its way too |
| FalseAlarm.SameRequestsHide | test_case/plr_dpin0013.c:601-643 | With one large request or its mirror page interrupted there is no such chunk when both passes were cut into the same requests |
| Prediction.Predictor.SetLastLsn | plr_common.h:163-164 | One verified request is counted, and the prediction made, as specified; the count starts anew at a flush request only while nothing was found wrong |
| Prediction.PredictedCounted | test_case/plr_dpin0013.c:584-585 | Over any sequence of verified requests the prediction is the last page of one request, whose number is a function of the first wrong one and the cycle, as soon as that request is verified |
| Prediction.PredictedIff | test_case/plr_dpin0013.c:584-585 | That request is the last one before the next flush, with the flush, exactly when the first wrong one is no later than the first flush or is a flush itself; else it is the one before |
| ZoneCheck.VerifyCheckPages | plr_pattern.c:244 | The loop in 8 MB reads files one finding a page and tells whether one of them is a crash |
| ZoneCheck.PagesAre | plr_pattern.c:244 | The k-th finding is about sector s + 8 * k with 8 sectors, and a crash exactly when that page is not right or has another loop count than one asked for |
| ZoneCheck.PagesCleanIff | plr_pattern.c:244 | None is exactly when every page of the range has its own sector, a right checksum and the loop count asked for |
| ZoneCheck.ZoneNeverMarkedIff | plr_pattern.c:244 | After a power loss whose pages are each as before or as written, no such device is marked in a zone exactly when every page of it was right before the pass or belongs to a complete request |
| ZoneCheck.OldPassSoundBefore | plr_pattern.c:244 | That is so in every zone of the first half when the pass before was complete |
| BlamedDevice.SeedSize | plr_write_rand.c:18-159 | Seed 23 gives 64 sectors as its first request size |
| BlamedDevice.HealthyDeviceBlamed | test_case/plr_dpin0013.c:634-643 | Two passes with the cache on and 258 requests a flush, the first resumed at a mirror page with seed 23, the second from any seed and lost before its flush: with any checksum, a device that wrote each page or not is marked in zone 1, no request confirms a crash, the prediction is right, and the check of that zone's sector numbers and checksums is clean |
| Rtc64.ExactIff | plr_rtc64.c:89-112 | The result is the true tick exactly when the seconds are less than half a range ahead of it, and no more than half a range behind unless no wrap is to be counted |
| Rtc64.ResultsExact | plr_rtc64.c:89-112 | When at every call the seconds are within half a range of the true tick, every result is the true tick, however many wraps lie between calls |
| Rtc64.ResultsForward | plr_rtc64.c:89-112 | Such results never go backwards |
| Rtc64.OvershootStays | plr_rtc64.c:101-109 | The upper half is never lowered: one overshoot makes later results too large until the tick itself gets there |
| Rtc64.BaseLoss | plr_rtc64.c:76-77 | On all three boards converting a base tick to seconds and back loses less than 2^27 ticks |
| Rtc64.WholeSeconds | plr_rtc64.c:76-77 | The seconds of the base are the whole seconds in its ticks, at 30518, 41 or 52 nanoseconds a tick |
| Rtc64.AgreeingClocksExact | plr_rtc64.c:61-112 | From every base, as long as the two clocks drift apart by less than 2^31 - 2^27 ticks, every result is the base plus all ticks since |
| Rtc64.Clock.SetTickCount | plr_rtc64.c:61-79 | Setting records both clocks, clears the upper half and derives the seconds of the base |
| Rtc64.Clock.GetTickCount | plr_rtc64.c:89-112 | The loop ends and raises the upper half exactly as far as specified, never so far that a 64-bit value wraps |
| Rtc64.Clock.ReadingOf | plr_rtc64.c:56-99 | What the wrapping counters give after so many ticks and seconds is the true tick modulo 2^32 and its seconds |
| Rtc64.Clock.CallExact | plr_rtc64.c:89-112 | A call gives the base and all ticks since as long as the clocks agree and no earlier call overshot |
| BitTricks.GenericFls | plr_io_statistics.c:68-95 | The halving search finds the position of the highest set bit of any 32-bit word |
| BitTricks.GenericFfs | plr_io_statistics.c:32-59 | The halving search finds the position of the lowest set bit of any signed 32-bit value |
| BitTricks.BucketIsLeast | plr_io_statistics.c:164-181 | The bucket of a size is the least of the nine whose bound 4096 * 2^i it does not exceed, or the last |
| BitTricks.StatisticGetIndex | plr_io_statistics.c:164-181 | The index computed from the two bit positions is that bucket, for every 32-bit size |
| Statistics.AccMeans | plr_io_statistics.c:446-484 | An accumulator holds count, sum, least and largest of its latencies |
| Statistics.AccBounds | plr_io_statistics.c:197-251 | In a non-empty accumulator min * count <= total <= max * count, so the printed average lies between them |
| Statistics.BucketHas | plr_io_statistics.c:164-181 | A bucket has the requests of at most 8, 16, ... or 1024 blocks and more than the one before, sizes taken modulo 2^23 blocks; the ninth has the rest |
| Statistics.LatencyCount | plr_io_statistics.c:446-484 | An accumulator is about as many latencies as its command and bucket have requests |
| Statistics.LatencyListed | plr_io_statistics.c:446-484 | And about the latencies of those, no other |
| Statistics.TotalsGrow | plr_io_statistics.c:446-484 | The totals of a command count its requests, their blocks and their latencies |
| Statistics.Conservation | plr_io_statistics.c:460-484 | Over any run the nine buckets of a command hold all its requests and all its latency, each once |
| Statistics.TopMeans | plr_io_statistics.c:438-444 | The top latency is the largest since the last clear, with the size of the first request that had it |
| Statistics.Counters.StatisticEmmcAdd | plr_io_statistics.c:460-553 | Counting one request keeps every bucket, feature, total and the top latency equal to their definitions over all requests since the last clear |
| Statistics.Counters.StatisticClear | plr_io_statistics.c:555-594 | After a clear all counters are those of no request; a pending start stays |
| Statistics.Counters.StatisticMmcRequestStart | plr_io_statistics.c:651-657 | A start is remembered when enabled |
| Statistics.Counters.StatisticMmcRequestDone | plr_io_statistics.c:621-649 | A request is counted only with a start other than 0 and a clock that did not go back; the start is forgotten either way |
| Precondition.MakeDirtyCondition | plr_precondition.c:136-245 | The two fill loops write end to end, in blocks of 0x2000 sectors but the last, from the start of each outside area to its stop |
| Precondition.DirtyExtents | plr_precondition.c:136-245 | A sector is written exactly when it lies before the front stop or between the test area and the back stop, so on the device and never in the test area, and in one write only |
| Precondition.DirtyAmount | plr_precondition.c:148-153 | Either the whole outside is filled or the amount lies in (budget, budget + 0x2000]; from ratio 100 on always the whole outside; nothing is written behind the test area before all in front of it, and both parts are whole blocks unless they are filled to their end |
| Precondition.BudgetIs | plr_precondition.c:148-153 | The budget is the given percentage of the sectors outside, rounded down |
| Precondition.CheckEraseZeroCondition | plr_precondition.c:26-84 | The block-wise check reports the first dirty whole page, and otherwise divides by zero exactly when no second has passed |
| Precondition.FirstDirtyIs | plr_precondition.c:62-72 | The page reported is the first whose first word is neither all zeros nor all ones |
| Precondition.CleanIff | plr_precondition.c:62-72 | It finds nothing exactly when the first word of every whole page of the area is all zeros or all ones |
| Uecc.ReadUeccVerify | test_case/plr_dpin0014.c:423-488 | The buffer-wise scan, with or without a part left out, reports the sector of the first compared word that differs, as the flat scan does |
| Uecc.VerdictIs | test_case/plr_dpin0014.c:461-481 | The verdict names the sector of the first word that is compared and differs, and nothing when there is none |
| Uecc.WholeAreaMatches | test_case/plr_dpin0013.c:248-300 | With nothing left out it succeeds exactly when every word of the area matches the repeated reference |
| Uecc.ReadUeccOutside | test_case/plr_dpin0014.c:442-467 | The scan that leaves out the test area takes it to end at its length |
| Uecc.OutsideIff | test_case/plr_dpin0014.c:438-488 | For every device and reference its verdict is whether all words outside the test area match, when and only when that area begins at sector 0 and ends with a buffer or with the device |
| Uecc.AlwaysPassesIff | test_case/plr_dpin0013.c:248-300 | After random writes into a test area larger than a page the scan finds nothing, whatever was drawn and written, exactly when the area begins at or behind its own length |
| Uecc.WritesGoRound | test_case/plr_dpin0013.c:374-387 | The w-th write of all rounds goes to slot w modulo the buffers that fit, so every slot is written in turn |
| Uecc.SequentialContainedIff | test_case/plr_dpin0013.c:357-387 | Every write stays in the clipped test area exactly when one buffer fits in it |
| Uecc.SequentialWrite | test_case/plr_dpin0013.c:357-387 | Each round writes 2^21 sectors and carries its position to the next |
| Uecc.RandomInsideIff | test_case/plr_dpin0013.c:168-172 | Every draw gives a page inside the area exactly when the area is larger than a page |
| Uecc.OffsetReached | test_case/plr_dpin0013.c:168-172 | Every page boundary in front of the last page of the area is the offset of some draw |
| RunLoop.WritesOverCrashIff | plr_main.c:262-339 | One iteration writes with a stored crash word exactly when its test case failed with nothing recorded and the card took the word |
| RunLoop.RecordedNeverSlips | plr_main.c:304-317 | A test case that returns what verification recorded never does that |
| RunLoop.NoWriteAfterCrash | plr_main.c:760-850 | Once the crash word is stored no later iteration of any boot starts writing |
| RunLoop.WritesOnlyUnlatched | plr_main.c:262-339 | In a run where failures are recorded every writing phase starts, and ends, with a zero crash word |
| RunLoop.WritesIff | plr_main.c:262-339 | One iteration writes exactly when the finish count and the calibration let it, no crash word is stored, and the test case did well, or failed with nothing recorded while the card took the word |
| RunLoop.OutcomeIs | plr_main.c:733-850 | When it finishes and when it asks for another iteration; it stops in every other case |
| RunLoop.WordIs | plr_main.c:296-317 | The stored word becomes 5 exactly when a failed test case was looked at, recorded a crash or nothing, and the card took it; else it stays |
| RunLoop.Tester.RunOnce | plr_main.c:733-850 | One iteration follows the specification: boot count, stored word, outcome and whether it wrote |
| RunLoop.Tester.Run | plr_main.c:733-859 | The iterations follow the specification, each but the last asking for another; however long it runs the loop never writes over a stored crash word, and with internal power-off and a finish count it ends after at most as many writing phases as boots are left |

## Left out

* Printing, help, colours, the `tr` command line, the serial protocol and its tokens.
* Device, SD-card and power calls are a map from sector to content with success assumed; a request that fails is the operation's result in `Pattern` and an input in `RunLoop`.
* Where the SD card's partition begins: sector numbers are relative to it. The four-byte allocation behind the one-sector write of the crash word is not modelled.
* Allocation failure and `free`: allocation succeeds, and removal from a list is unlinking.
* The CRC itself is a function parameter. Boot count, sequence number and next-sector fields are in the header but not checked, as in the source.
* Byte order: words are stored least significant byte first, as on the boards the tester runs on.
* Later passes inside one call of the verifier, which run without reseeding; the first pass is modelled.
* The verifier's own per-request states (unconfirmed, partial and cached requests); `FalseAlarm.Unconfirmed` only says when no request on its way can confirm a crash.
* The random choice of the zone in `extra_verification` and in the check before it: the zone is a parameter, and the results are for every zone. Zones there have no reserved sectors, as in the interleaving tests.
* A power loss whose predicted last packed or cached request the verifier never came to, because its pass ended first.
* Chunk arrays and reserved sectors of `plr_case_info.c`, which the interleaving tests do not use.
* VerifyStore.LoadRequestList: requires that the words of a step do not run off the buffer, where the source would read behind it; `LogCodec.Parse` says when they do.
* VerifyStore.VerifyLoadLog: requires the same, and an index whose extents are on the card and fit the buffer.
* ExtraCheck.VerifyCustomizing: a chunk of no page, whose mirror page the source would file for ever, is filed once, and a longer chunk than the 128 pages read is followed only that far, where the source would look behind what it read.
* VerifyStore.VerifySaveLog: requires that the write buffer holds a step's records and that sector numbers fit 32 bits, because the source has no check for either.
* Statistics.Counters.StatisticEmmcAdd: 64-bit overflow of the sums is not modelled, and switching the statistics on and off is left out.
* Precondition.MakeDirtyCondition: what is written (fixed or random words) is left out; only where.
* Calibration, power-off timing, aging and erase test cases.

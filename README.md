# Snapshot test harness, modelled in Dafny

This project models the snapshot-testing harness of a raylib rendering
repository and proves properties of that model. The harness has four parts:

- **Baseline lifecycle** (`testing-shaders/verify.cpp`). `GenerateVerifierFileName` turns a test-case name into a file stem. `VerifyImages` then either writes the baseline `<Stem>.png`, or writes the candidate `<Stem>_new.png`, compares it with the baseline and, when the two differ, runs the upload script, reads the URL it leaves in `url` and calls `on_failure` with it; then it deletes the candidate.
- **Frame cadence** (`integration-testing/test-helper.h`). `onEveryNthFrame` registers periodic actions. `runFrames` runs the step callback once per tick and then every action whose period divides the tick. `Screenshot` names snapshot files after the tick.
- **Test platform** (`integration-testing/platform-test.cpp`). A one-bit "jump pending" latch that the test sets and the game consumes, and a constant `Random`.
- **Image comparison** (`common/image-compare.cpp`). `AreImagesDifferent` decides "different" with MagickWand, writes the distortion through its out-parameter and acquires and releases wands.

Modules:

- `VerifierName` (`verifier_name.dfy`) holds the whitespace and case rules, the word split (`Words`) and the specification of the stem (`Stem`). It also holds the loop-based `GenerateVerifierFileName`, proved to compute `Stem`.
- `Disk` (`disk.dfy`) is the file system as a class holding the set of existing regular files.
- `Verify` (`verify.dfy`) is `VerifyImages`. It is proved against an event trace (`VerifyEvents`) and the file set that the trace leaves (`Apply`).
- `TestHelper` (`test_helper.dfy`) is the `frame_actions` registry as a class. `RunFrames` is proved to return the call trace `Schedule`. The schedule is then characterised independently: which calls it contains, in what order, and how often each action fires.
- `PlatformTest` (`platform_test.dfy`) is the latch as a class, with a reference semantics for sequences of forces and polls.
- `ImageCompare` (`image_compare.dfy`) is `AreImagesDifferent` with a ghost log of MagickWand calls. From the log, the live wands and the set-up/shut-down balance are computed.

Calls into code outside the core are parameters:

- The image oracle `AreImagesDifferent`, as seen by `VerifyImages`.
- ImageMagick's decoder and RMSE metric.
- The text `ReadFile` returns.
- Whether the failure callback throws.

## Model

| member | source | states |
|---|---|---|
| VerifierName.GenerateVerifierFileName | testing-shaders/verify.cpp:12-28 | the loop returns `Stem(input)`: the capitalised whitespace-separated words, concatenated |
| VerifierName.ExtractWord | testing-shaders/verify.cpp:17 | `ss >> word` succeeds exactly when a word remains; it returns that first word, non-empty, and the rest of the input holds the remaining words |
| VerifierName.SkipSpace | testing-shaders/verify.cpp:17 | the whitespace skip of `ss >> word` passes over whitespace only, stops at the next non-whitespace character or the end, and leaves the remaining words unchanged |
| VerifierName.ScanWord | testing-shaders/verify.cpp:17 | the read of `ss >> word` stops at the first whitespace character or the end, and everything it passes is non-whitespace |
| VerifierName.CapitalizeWord | testing-shaders/verify.cpp:19-22 | the in-place loop gives `Capitalize(word)`: first character upper-cased, the others lower-cased |
| VerifierName.CapitalizeSpec | testing-shaders/verify.cpp:19-22 | `Capitalize` keeps the length, the whitespace positions and the case-folded text are kept; the first character is no lower-case letter and no later one is an upper-case letter |
| VerifierName.Words | testing-shaders/verify.cpp:17 | the words `ss >> word` extracts in turn: skip whitespace, take the longest non-whitespace run, stop when only whitespace is left (no contract of its own; `WordsPartitionInput` and `WordsSplitAtSpace` state its properties) |
| VerifierName.WordLen | testing-shaders/verify.cpp:17 | the word ends at the first whitespace character or at the end of the input |
| VerifierName.WordsPartitionInput | testing-shaders/verify.cpp:17 | the words are non-empty, contain no whitespace, and together are the input without its whitespace |
| VerifierName.StemHasNoSpace | testing-shaders/verify.cpp:17-23 | the stem contains no whitespace character |
| VerifierName.StemIsInputWithoutSpace | testing-shaders/verify.cpp:17-23 | the stem is as long as the input's non-whitespace characters and equals them up to case |
| VerifierName.StemOfBlank | testing-shaders/verify.cpp:15-27 | an empty or all-whitespace name gives the empty stem |
| VerifierName.StemOfWord | testing-shaders/verify.cpp:17-23 | a single word is simply capitalised |
| VerifierName.WordsSplitAtSpace | testing-shaders/verify.cpp:17 | a whitespace character separates the words on its left from those on its right |
| VerifierName.StemSplitsAtSpace | testing-shaders/verify.cpp:17-23 | the stem of `a + space + b` is the stem of `a` followed by the stem of `b` |
| VerifierName.StemIgnoresSpacing | testing-shaders/verify.cpp:17-23 | one or two whitespace characters between words give the same stem |
| VerifierName.StemDropsSpaceRun | testing-shaders/verify.cpp:17-23 | any non-empty run of whitespace between two parts gives the stem of the first part followed by that of the second; with an empty part this covers leading and trailing runs |
| VerifierName.StemSkipsLeadingSpace | testing-shaders/verify.cpp:17-23 | leading whitespace of any length does not change the stem |
| VerifierName.StemIgnoresCase | testing-shaders/verify.cpp:19-21 | names equal up to letter case give the same stem |
| VerifierName.StemNotInjective | testing-shaders/verify.cpp:17-23 | two different names, `"b"` and `" B"`, share a stem |
| Disk.FileSet.FileExists | testing-shaders/verify.cpp:30-32 | a path exists as a regular file exactly when it is in the set |
| Disk.FileSet.RemoveFile | testing-shaders/verify.cpp:34-36 | the path is no longer in the set and nothing else changes; a missing path is no error |
| Disk.FileSet.TakeScreenshot | testing-shaders/verify.cpp:56 | the path is added (or rewritten) and nothing else changes |
| Verify.PathsNeverCoincide | testing-shaders/verify.cpp:49-52 | baseline, candidate and the URL file are three different paths |
| Verify.CandidateShadowsOtherBaseline | testing-shaders/verify.cpp:49-52 | the candidate of test `name` is the baseline of test `name + " _new"`, so when `name`'s own baseline exists its candidate overwrites that file |
| Verify.CallbackOnlyOnDifference | testing-shaders/verify.cpp:54-69 | `on_failure` runs exactly once when an existing baseline differs from the candidate and never otherwise |
| Verify.UrlRemovedBeforeCallback | testing-shaders/verify.cpp:66-68 | the URL file is removed before the callback runs |
| Verify.BaselineUntouched | testing-shaders/verify.cpp:54-60 | an existing baseline is neither written nor removed, only the candidate is screenshotted, and only the URL file and the candidate are removed; a missing baseline is written with no comparison and no callback |
| Verify.VerifyEffect | testing-shaders/verify.cpp:47-72 | the final file set for each case: baseline added; candidate gone; candidate kept when the callback throws; URL file gone after a difference |
| Verify.RunUploadScript | testing-shaders/verify.cpp:65 | the script leaves the URL file behind |
| Verify.CompareWithBaseline | testing-shaders/verify.cpp:60-71 | with a baseline present: screenshot the candidate, compare, and on a difference run the upload script, read and remove the URL file and call back; the candidate is removed unless the callback throws; the outcome is matched or mismatched with the URL read |
| Verify.VerifyImages | testing-shaders/verify.cpp:47-72 | the events performed, the new file set they produce and the outcome (baseline created, matched, mismatched with the URL) |
| TestHelper.FrameScheduler.constructor | integration-testing/test-helper.h:13 | the registry starts empty |
| TestHelper.FrameScheduler.OnEveryNthFrame | integration-testing/test-helper.h:26-29 | exactly one entry is appended and earlier entries are unchanged; any period is accepted |
| TestHelper.FrameScheduler.RunFrames | integration-testing/test-helper.h:15-24 | the nested loop makes exactly the calls of `Schedule(frameActions, numFrames)` and leaves the registry unchanged; it needs no zero period once a tick runs, where C++ `%` would be undefined |
| TestHelper.FiresAt | integration-testing/test-helper.h:22 | the firing test `i % frame_count == 0`, with Dafny's `%`; a zero period, undefined in C++, never fires (no contract of its own; `FiresAtMatchesCpp` relates it to C++) |
| TestHelper.FiresAtMatchesCpp | integration-testing/test-helper.h:22 | for every non-zero period and every tick, of either sign, `FiresAt` holds exactly when C++'s truncating remainder is zero |
| TestHelper.ScheduleCharacterized | integration-testing/test-helper.h:15-24 | a call is made iff it is the step of a tick in `0..N-1`, or slot `k` at tick `t` with `t % period == 0`; and calls are strictly ordered by tick, step first, then slots in order |
| TestHelper.FiredMembers | integration-testing/test-helper.h:21-22 | the actions fired at a tick are exactly those whose period divides it, in slot order, each passed the tick |
| TestHelper.StepsOneTickMore | integration-testing/test-helper.h:17-19 | running one more tick adds exactly one step call, for the new tick |
| TestHelper.StepOncePerTick | integration-testing/test-helper.h:17-19 | the step runs exactly once per tick `0..N-1`, in order |
| TestHelper.FiresOneTickMore | integration-testing/test-helper.h:17-22 | running one more tick `t` adds a call of an action exactly when its period divides `t` |
| TestHelper.FiresOnMultiples | integration-testing/test-helper.h:17-22 | the action in a slot runs exactly at the multiples of its period below `N`, in increasing order |
| TestHelper.MultiplesCount | integration-testing/test-helper.h:17-22 | a positive period `p` fires `N / p` times, plus one when `p` does not divide `N` |
| TestHelper.TickZeroFiresAll | integration-testing/test-helper.h:17-22 | tick 0 fires every registered action, in registration order |
| TestHelper.NextStepAfterFire | integration-testing/test-helper.h:17-22 | the first step after an action fired at tick `i` is the step of tick `i + 1` |
| TestHelper.GameTestCadence | integration-testing/game.test.cpp:11-13 | over 70 frames, the period-6 jump is forced 12 times and the period-4 screenshot is taken 18 times |
| TestHelper.IntToDecimal | integration-testing/test-helper.h:33 | `std::to_string` of an `int`: non-empty, a leading minus sign exactly for negative values, digits everywhere else |
| TestHelper.DecimalRoundTrip | integration-testing/test-helper.h:33 | `std::to_string` of a natural number gives digits only, and they read back as the number |
| TestHelper.IntToDecimalInjective | integration-testing/test-helper.h:33 | different integers have different decimal strings |
| TestHelper.SnapshotPath | integration-testing/test-helper.h:33 | the snapshot file name: the directory `integration-testing/snapshots/`, then the frame in decimal (a minus sign exactly for negative frames, digits otherwise), then `.png` |
| TestHelper.SnapshotPathInjective | integration-testing/test-helper.h:31-35 | different frames are written to different snapshot files |
| TestHelper.Screenshot | integration-testing/test-helper.h:31-35 | the snapshot file for the frame is added and nothing else changes |
| PlatformTest.TestPlatform.constructor | integration-testing/platform-test.cpp:4 | no jump is pending at start |
| PlatformTest.TestPlatform.ForceJumpKey | integration-testing/platform-test.cpp:6-9 | afterwards a jump is pending, whatever came before |
| PlatformTest.TestPlatform.JumpKeyPressed | integration-testing/platform-test.cpp:11-20 | returns whether a jump was pending and leaves none pending |
| PlatformTest.Replay | integration-testing/platform-test.cpp:4-20 | driving a fresh latch gives the poll answers `Answers(inputs)` and leaves `Pending(inputs)` |
| PlatformTest.PendingIffForceSinceLastPoll | integration-testing/platform-test.cpp:8-16 | a jump is pending exactly when a force came after the last poll |
| PlatformTest.TrueAnswersAtMostForces | integration-testing/platform-test.cpp:13-16 | each true answer consumes its own force: true answers plus the pending jump never outnumber the forces |
| PlatformTest.ForceRepeatedlyThenPoll | integration-testing/platform-test.cpp:6-20 | any number of forces then two polls: the first answers whether there was a force, the second answers false |
| PlatformTest.Random | integration-testing/platform-test.cpp:22-25 | the stub value lies strictly inside (0, 1) and is a value the PC platform can draw (`k / 1000`) |
| ImageCompare.ReadImages | common/image-compare.cpp:10-16 | set-up leaves two live wands; the second image is read only when the first read succeeds; no comparison is made yet |
| ImageCompare.ReleaseDiff | common/image-compare.cpp:32-39 | destroying the wand of the difference image that a successful `MagickCompareImages` returns leaves exactly the two image wands and the library still set up (used by the corrected last return) |
| ImageCompare.ReleaseBoth | common/image-compare.cpp:17-19 | destroying both image wands and calling `MagickWandTerminus` leaves nothing allocated and the library shut down |
| ImageCompare.SetUp | common/image-compare.cpp:10-13 | after set-up two wands are live and the library is set up once |
| ImageCompare.AreImagesDifferent | common/image-compare.cpp:7-40 | the second read happens only when the first succeeded; a failed read or a size mismatch gives "different" with the out-parameter untouched, all released and no metric computed; a failed compare gives "different" with distortion 0; otherwise the result is `distortion != 0` and three wands stay live |
| ImageCompare.LeakOnMatchingImages | common/image-compare.cpp:39 | identical readable images give "not different" and leave three wands allocated |
| ImageCompare.AreImagesDifferentReleasing | common/image-compare.cpp:7-40 | the same answers and out-parameter, with every wand released and the library shut down on every path |

## Left out

- Not modelled, being graphics and floating-point physics:
  - `integration-testing/game.cpp`.
  - `common/render.cpp` and `common/render.h`.
  - The raylib drawing and window calls.
- `http-api-rendering/api.js` and `http-api-rendering/main.cpp` are not part of this model: they are HTTP, process and float-parsing glue.
- Keyboard polling and the raylib random generator in `integration-testing/platform-pc.cpp` are not modelled. `PcRandom` only names the values its `Random` can return, as real numbers, not `float`.
- Left as parameters, not modelled:
  - ImageMagick's decoding and the RMSE metric.
  - The contents of screenshots.
  - The upload script.
  - The text `ReadFile` returns.
- Verify.VerifyImages: the call to `on_failure` is an event in the trace, and an exception from it is the flag `callbackThrows`. The test framework's `Verify()` macro is not modelled.
- Verify.VerifyImages: models the definition, which takes `std::function<void(std::string)>`. The declaration in `testing-shaders/verify.h` differs and is not modelled.
- Disk.FileSet.FileExists: paths that exist but are not regular files are not distinguished, and the `filesystem_error` that `exists` and `is_regular_file` can throw is not modelled.
- Disk.FileSet.RemoveFile: the `filesystem_error` that `remove` can throw is not modelled.
- VerifierName.GenerateVerifierFileName: whitespace and case follow the C locale. Only ASCII letters change case, and the undefined behaviour of `toupper` on negative `char` values is not modelled.
- ImageCompare.AreImagesDifferent: after a failed compare the distortion is taken to be the 0 written before the call. ImageMagick may have written to it, and that is not modelled.
- ImageCompare.AreImagesDifferent: image geometry is compared as natural numbers, and pixels are an opaque handle.
- TestHelper.FrameScheduler.RunFrames: the callbacks are not executed. The method returns the calls it would make, in order, and their effects belong to the caller.
- TestHelper.MultiplesCount covers positive periods only. Negative periods are accepted by `OnEveryNthFrame` and fire on the same ticks as their absolute value, but no count is stated for them.
- TestHelper.FiresAt: a zero period, for which C++ `%` is undefined, never fires. `RunFrames` requires that no zero period is registered once a tick runs.
- PlatformTest.Random: `0.5f` is modelled as the real number one half.
- The game's step polls the jump key only while the player is alive. Replaying the game test against the latch is therefore not modelled.

## Findings

| source | as written | input that shows it | evidently intended | confidence | as-written member | corrected member |
|---|---|---|---|---|---|---|
| common/image-compare.cpp:39 | the last return releases neither the two image wands nor the wand holding the difference image, and never calls `MagickWandTerminus` | two readable images of the same size that compare with zero distortion (any successful comparison) | release all three wands and shut the library down, as the three early returns do | not executed | ImageCompare.LeakOnMatchingImages | ImageCompare.AreImagesDifferentReleasing |

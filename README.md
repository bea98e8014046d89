# Batch image converter: a Dafny model

The repository holds two small programs that convert game screenshots.

- `app.py` is a PyQt window. Its "Start" button runs `MainWindow.convertScreenshots` on a worker
  thread, and the worker's signals drive a progress bar. The conversion:
  - takes one snapshot of the destination directory's listing and one of the source listing;
  - emits the number of source entries;
  - classifies each source name by its last four characters;
  - builds the output name with Python's character-set `str.strip` plus the selected format;
  - skips names already in the snapshot;
  - opens and saves the rest, emitting status, preview and "file processed" signals;
  - when "Delete originals" is checked, removes each recognised source file after it is saved or
    skipped, until the first exception ends the call.
- `script.py` is an earlier command-line version of the same loop. It uses fixed directories,
  converts every entry to PNG with no filter and no collision check, and removes originals
  only when its module flag is set (it ships set to `False`).

The model states everything the programs do to the outside world as a trace of steps:
- `Effects.Step` is a signal emission, an image save, or a file removal;
- `Effects.Outcome` is a trace plus whether the call ended by raising;
- `Effects.Disk` gives the directory listings, the files the codec fails on, and the files
  whose removal fails.

Each operation that changes state is an imperative method proved equal to a specification
function:
- `App.MainWindow.ConvertScreenshots`, a loop, against `App.ConvertJob`, whose loop is the
  recursive `App.ConvertLoop`;
- `App.Worker.Run`, which has no loop, against `App.Lifecycle`;
- `Script.RunMain`, a loop, against `Script.MainRun`, whose loop is the recursive
  `Script.EntriesLoop`.

The progress slots `App.MainWindow.ResetProgressBar`, `CollateFilesToProcess` and
`UpdateProgressBar` change the bar's fields in place, and each one's `ensures` gives the new
value through Qt's rules for `reset`, `setMaximum` and `setValue` (`App.SetMaximum`,
`App.SetValue`).

The properties of the programs are lemmas about those functions. The modules are:
- `Wrappers`: `Option`;
- `PyStr`: Python's `s[-n:]` and `s.strip(chars)`;
- `Effects`: signals, steps, outcomes, the disk, and trace filters;
- `App`: `app.py`;
- `Script`: `script.py`.

The model follows the code as written in these places:
- `.jpeg` is the JPEG output extension.
- The strip removes a character set, not a suffix: `pig.png` becomes `i.jpeg`, and `bob.bmp`
  becomes `o.png`.
- A recognised file that is skipped because its output name already exists is still removed
  when the checkbox is set.
- Any exception raised by the codec or by `os.remove` ends the whole call. The worker then
  emits `error` and `finished`.
- The extension is read from the last four characters of the name, not split off at the last dot.
- There is no per-file error signal: the loop stops at the first exception instead of moving on
  to the next file.

## Model

| member | source | states |
|---|---|---|
| PyStr.StripWindow | app.py:286 | `str.strip(chars)` returns exactly the window of `s` whose outside is made of characters in the set and whose first and last characters are not in it |
| PyStr.StripShape | app.py:286 | the strip is no longer than `s`, starts and ends outside the set, and is empty iff every character of `s` is in the set |
| PyStr.StripIdempotent | app.py:286 | stripping twice with the same set equals stripping once |
| PyStr.StripOwnSuffix | app.py:286 | `(stem + chars).strip(chars) == stem` when the stem neither starts nor ends with a character of `chars` |
| Effects.RenderInjective | app.py:291-295 | the texts "Editing {file} now..." and "Saved as {name}..." determine which template and which argument produced them |
| App.ClassifyOwnTail | app.py:268-285 | the match maps the last four characters of each accepted ending (".png", ".jpg", ".jpeg", ".gif", ".bmp", ".tiff", ".tga") back to that ending |
| App.EndingSpec | app.py:268-285 | a recognised ending is an accepted one sharing the file's last four characters; an unrecognised file shares them with no accepted ending |
| App.EndingOfExtension | app.py:268-285 | any name ending in an accepted extension is classified with that extension |
| App.OutputNameOfCleanStem | app.py:268-288 | for a stem that neither starts nor ends with a character of the extension, `stem + ext` gets the output name `stem + format` |
| App.OutputNameEatsStem | app.py:286-288 | the character-set strip also eats stem characters: "pig.png" with ".jpeg" gives "i.jpeg" |
| App.EndingWithoutDot | app.py:268-288 | "photojpeg" (no dot) is recognised as ".jpeg", and its output name with ".png" is "hoto.png" |
| App.UnrecognisedSkipped | app.py:268-285 | a file whose last four characters are those of no accepted extension gets no output name, and its iteration takes no step at all (no signal, no save, no removal) whatever the snapshot and the checkbox |
| App.FileStepsRaise | app.py:290-303 | one file's iteration raises iff it is converted and the codec fails, or it is recognised, the checkbox is set and the removal fails |
| App.FileStepsFacts | app.py:290-303 | one file saves its output name iff recognised, not in the snapshot and the codec succeeds; each save comes with one `file_processed`; it removes itself iff recognised, checkbox set and nothing raised |
| App.FileStepsArePerFile | app.py:290-303 | one file's iteration emits only status, preview and `file_processed` signals |
| App.ConvertedFileOrder | app.py:290-303 | a converted file's steps are: status "Editing", preview, the save of `newFilename` into `editedPath` (the path `f"{editedPath}/{newFilename}"`), status "Saved as", `file_processed`; then the removal if the checkbox is set and it succeeds |
| App.RemoveIfFilters | app.py:301-303 | the optional `os.remove` step leaves what a file saved and its `file_processed` count unchanged, and adds exactly one removal of that file when the checkbox is set and the removal succeeds |
| App.RemoveIsLast | app.py:301-303 | a removal is the last step of its file's iteration and removes that file |
| App.Plan | app.py:267-288 | the loop visits every source entry in listing order with the output name that entry gets |
| App.LoopOnlyFileSteps | app.py:267-303 | the loop emits no count, start, verdict or finish signal |
| App.LoopSaves | app.py:267-303 | the loop's saves are a prefix of the reference saves (one per converted entry, in order), all of them when nothing raised, each matched by one `file_processed` |
| App.LoopRemoves | app.py:267-303 | the loop removes nothing with the checkbox clear; otherwise its removals are a prefix of "every recognised entry in order", all of them when nothing raised |
| App.LoopAbortsAt | app.py:267-303 | the first file whose iteration raises ends the loop: the trace is the earlier files' steps plus that file's, and nothing after |
| App.LoopConvertsNothing | app.py:290-303 | with the checkbox clear and every recognised output name already present, the loop does nothing |
| App.SnapshotNotUpdated | app.py:251-294 | the snapshot is taken once: two sources with the same output name that is not in the snapshot are both saved to that name |
| App.EmptyPathDoesNothing | app.py:247-253 | with either path empty, the call does not depend on the disk at all (nothing is listed), and the worker emits exactly `started(False)`, `result`, `finished(True)` |
| App.JobCountFirst | app.py:253-296 | with both directories listable, the first step is the count of all source entries, recognised or not; every later step is per-file; there are at most that many `file_processed` |
| App.JobFileActions | app.py:247-303 | the whole call's saves and removals as in LoopSaves and LoopRemoves, over the source listing and the destination snapshot |
| App.RerunConvertsNothing | app.py:255-303 | when every output name is already present and the checkbox is clear, the call emits only the count |
| App.RunTwiceConvertsNothing | app.py:251-303 | with source and destination distinct as path text and the checkbox clear, a second call after a first that did not raise, against a destination still holding its earlier names and every name the first call saved, emits only the count and converts nothing |
| App.NamesOfIe | app.py:268-288 | "ie.png" gets the output name "ie.jpeg", and "ie.jpeg" in turn gets "i.jpeg" |
| App.OneDirectoryFirstRun | app.py:251-303 | with one directory as both source and destination holding "ie.png", the call converts it to "ie.jpeg" in that directory |
| App.OneDirectoryReconverts | app.py:251-303 | the same directory now holding "ie.png" and "ie.jpeg": the second call skips "ie.png" but converts "ie.jpeg" to "i.jpeg", so the call is not idempotent when source and destination coincide |
| App.JobHasNoLifecycleSignal | app.py:247-303 | the call itself never emits started, error, result or finished |
| App.WorkerLifecycle | app.py:34-45 | the worker emits `started(False)` first and only first, `finished(True)` last and only last, and exactly one verdict just before it: error iff the call raised, otherwise result |
| App.FailedConversion | app.py:290-294 | a file the codec fails on emits only the "Editing" status and the preview, then raises |
| App.JobAbortsAt | app.py:267-303 | the call's trace when the file at a given position is the first to raise: the count, the earlier files' steps, that file's steps |
| App.MissingDirectoryFails | app.py:253-258 | with both paths set but a directory that cannot be entered, `os.chdir` raises before the count: the call takes no step and raises, and the worker emits `started(False)`, `error`, `finished(True)` |
| App.CodecFailureAborts | app.py:34-45 | a codec failure on one converted file ends the worker's trace with that file's two signals, `error` and `finished(True)`: no later file is touched |
| App.AdvanceAdds | app.py:226-231 | from a non-negative value, k updates add k |
| App.AdvanceFromReset | app.py:226-231 | from the reset value -1, k ≥ 1 updates show k |
| App.ProgressCountsProcessed | app.py:148-152 | without a reset in a trace, the bar advances once per `file_processed` |
| App.LifecycleProgress | app.py:145-156 | after a worker's trace the bar shows the number of `file_processed` signals, or -1 if there were none |
| App.ProgressShowsConverted | app.py:145-156 | after a conversion run the bar shows the number of files saved, or -1 if none |
| App.ScenarioConvertOne | app.py:247-303 | the exact trace of converting one new "a.png" to ".jpeg" with the checkbox clear |
| App.ScenarioCollisionStillDeletes | app.py:290-303 | "a.png" whose "a.jpeg" already exists is not converted but is still removed when the checkbox is set |
| App.ScenarioUnrecognised | app.py:284-285 | "a.xyz" produces only the count, even with the checkbox set |
| App.ScenarioCodecFailure | app.py:290-294 | a failing codec on "a.png" gives count, status, preview, then an exception |
| App.MainWindow.constructor | app.py:82-108 | the window's fields, a format from the dropdown, and a fresh bar (value -1, maximum 100) |
| App.MainWindow.ResetProgressBar | app.py:197-198 | the bar's value becomes -1 |
| App.MainWindow.CollateFilesToProcess | app.py:215-220 | the bar's maximum becomes the file count; when the maximum changes, a value outside -1 up to the new maximum is reset to -1 |
| App.MainWindow.UpdateProgressBar | app.py:222-231 | the value becomes `Advance` of the old value (-1 to 1, v to v + 1) when that is within the range `setValue` accepts, and stays otherwise: below the maximum it advances and is at least 1, at or past a positive maximum it is unchanged |
| App.CheckedFromReset | app.py:222-231 | after a reset, k updates with k at most the maximum are never refused by the range check, so the bar shows what the unbounded counter shows |
| App.CheckedCapped | app.py:222-231 | after a reset, k updates with k at least a positive maximum leave the bar at the maximum |
| App.RangeCheckNeverApplies | app.py:145-152 | in a conversion run, starting from the reset value and the maximum set from `fileCount`, the range check never refuses an update, because the run emits at most that many `file_processed` |
| App.MainWindow.NameFile | app.py:268-288 | the loop body's naming gives the name Target specifies, or None for `case _: continue` |
| App.MainWindow.ConvertFile | app.py:290-303 | one iteration's steps and exception are those FileSteps specifies |
| App.MainWindow.ConvertScreenshots | app.py:247-303 | the method's trace and exception are those of ConvertJob |
| App.Worker.constructor | app.py:20-31 | the worker is bound to the window whose conversion it runs |
| App.Worker.Run | app.py:34-45 | the worker's emissions are the Lifecycle of the conversion's outcome |
| Script.EntrySteps | script.py:14-20 | one entry raises iff the codec fails on it, or the flag is set and its removal fails |
| Script.ExpectedPngSaves | script.py:13-17 | reference: one save to `EDIT_PATH/name.png` per listed entry, in listing order |
| Script.ExpectedRemovals | script.py:19-20 | reference: one removal per listed entry, in listing order |
| Script.LoopRaises | script.py:11-20 | the loop raises iff some listed entry fails |
| Script.LoopActions | script.py:13-20 | the saves are a prefix of one save per entry in listing order with no filter, all of them when nothing raised; nothing is removed with the flag clear; with it set the removals are a prefix of the entries in the same order, all of them when nothing raised (where the prefix ends: Script.LoopAbortsAt) |
| Script.LoopAbortsAt | script.py:11-20 | with no exception handling, when every earlier entry succeeds and one entry fails, the trace is exactly the earlier entries' steps followed by the failing entry's, and nothing is done for later entries; every earlier entry was saved, and removed when the flag is set |
| Script.RemoveFollowsSave | script.py:16-20 | every removal comes right after the save of the same file |
| Script.LoopStartsWithSave | script.py:13-17 | a non-empty trace starts with a save |
| Script.MainActions | script.py:11-20 | a missing source directory raises before any step; otherwise the run raises iff some entry fails, its saves are a prefix of one save per entry and its removals a prefix of the entries, both in listing order and complete when nothing raised (the removals: when the flag is set); nothing is removed with the flag clear |
| Script.MainAbortsAt | script.py:11-20 | when entry f is the first to fail, main raises, having saved exactly the entries before f (and f itself when only its removal failed) and removed exactly the entries before f when the flag is set |
| Script.DefaultKeepsOriginals | script.py:9 | with `deleteOriginals = False` as shipped, no original is ever removed |
| Script.PngNameOfBmp | script.py:14-15 | "x.bmp" becomes "x.png" when x neither starts nor ends with '.', 'b', 'm' or 'p' |
| Script.PngNameStripsStem | script.py:14-15 | the strip is a character-set strip: "bob.bmp" gives "o.png", "a.png" gives "a.png.png" |
| Script.PngNamesCollide | script.py:14-15 | "a.bmp" and "ab.bmp" get the same PNG name "a.png" |
| Script.SameTargetOverwrites | script.py:13-17 | with no collision check, both are saved to `EDIT_PATH/a.png`, the second overwriting the first |
| Script.RunMain | script.py:11-20 | the method's trace and exception are those of MainRun |

## Left out
- Qt widgets, layouts, file dialogs, `toggleInteractables`, `finishText`, `progressText` and the image preview (app.py:47-245) are user interface. The model records only the signals that drive them.
- `QSettings` loading and saving is persistence I/O and is not modelled.
- `QThreadPool` and `QRunnable` scheduling and cross-thread signal delivery are not modelled. Signals are appended to the trace in emission order, and each slot is assumed to run in that order.
- PIL's `Image.open`, `save` and `close` are one opaque operation. It fails exactly on the source names in `Disk.failsToConvert`. No pixel data or format conversion is modelled, and neither is whether the save writes over an existing file.
- `os.chdir`, `os.listdir` and `os.remove` are not modelled as calls. They are the listings in `Disk.dirs` (a missing path makes the `chdir` raise) and `Remove` steps that fail on `Disk.failsToRemove`. The working directory itself is not modelled.
- The text in the path fields, the dropdown and the checkbox are fixed fields of `MainWindow`. The source reads the dropdown and the checkbox again on each iteration, but `started(False)` disables those controls while the worker runs.
- `print` and `traceback` output is left out.
- The `error` signal's `(exctype, value, traceback)` payload and the `result` signal's `None` are left out.
- Effects.StatusLine: the status texts are kept as their template and argument, and `Effects.Render` gives the exact string.
- App.ProgressAfter: the trace-level slots count `file_processed` without the range check of `setValue`. App.RangeCheckNeverApplies shows that the check never refuses an update in a conversion run, so it makes no difference there.
- App.MainWindow.CollateFilesToProcess: the count is a `nat`, as the length of a listing is. A negative maximum would also lower Qt's minimum, and that case is not modelled.
- App.RunTwiceConvertsNothing: paths are taken to be absolute, and two paths name different directories exactly when their texts differ. Two texts for one directory ("C:/shots" and "C:/shots/", or two letter cases on Windows) meet its `rawPath != editedPath` and then behave as in App.OneDirectoryReconverts. For a relative path, `os.listdir(editedPath)` after `os.chdir(editedPath)` (app.py:254-255) resolves against the new directory; the model lists `Disk.dirs[editedPath]` instead.
- App.MainWindow.ConvertScreenshots: the loop body is split into the helper methods `NameFile` and `ConvertFile`, with the same branches in the same order.

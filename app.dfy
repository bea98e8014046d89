/**
 * The GUI converter (app.py): the batch loop `MainWindow.convertScreenshots`, the lifecycle of
 * `Worker.run` around it, and the progress-bar counter fed by its `updated` signal.
 */
module App {
  import opened Wrappers
  import opened PyStr
  import opened Effects

  /** FILE_FORMATS (app.py:53-59): the dropdown's items, each appended verbatim to output names. */
  const FileFormats: seq<string> := [".png", ".jpeg", ".gif", ".tiff", ".tga"]

  /** The endings the extension match accepts, after it rewrites "jpeg" and "tiff". */
  const InputExtensions: set<string> := {".png", ".jpg", ".jpeg", ".gif", ".bmp", ".tiff", ".tga"}

  // ---------------------------------------------------------------------------------------------
  // Classification and naming

  /**
   * The match on `file[-4:]`: "jpeg" and "tiff" give ".jpeg" and ".tiff", the five dotted
   * three-letter endings stand for themselves, anything else is `case _: continue`.
   */
  function Classify(tail: string): Option<string>
  {
    if tail == "jpeg" then Some(".jpeg")
    else if tail == "tiff" then Some(".tiff")
    else if tail in {".png", ".jpg", ".gif", ".bmp", ".tga"} then Some(tail)
    else None
  }

  /** The ending a source file is classified with, or None when the file is skipped. */
  function Ending(file: string): Option<string>
  {
    Classify(LastChars(file, 4))
  }

  /** `f"{file.strip(ending)}{fileFormat}"`: a character-set strip, then the selected format. */
  function NewFilename(file: string, ending: string, format: string): string
  {
    Strip(file, ending) + format
  }

  /** The output name a source file gets, or None when it is skipped. */
  function Target(file: string, format: string): Option<string>
  {
    match Ending(file)
    case None => None
    case Some(ending) => Some(NewFilename(file, ending, format))
  }

  /** The file is recognised and its output name is not in the destination snapshot. */
  predicate Converts(file: string, existing: seq<string>, format: string)
  {
    Target(file, format).Some? && Target(file, format).value !in existing
  }

  /** Every recognised extension is classified as itself by its own last four characters. */
  lemma ClassifyOwnTail(ext: string)
    requires ext in InputExtensions
    ensures Classify(LastChars(ext, 4)) == Some(ext)
  {
    if ext == ".jpeg" {
      assert LastChars(ext, 4) == "jpeg";
    } else if ext == ".tiff" {
      assert LastChars(ext, 4) == "tiff";
    } else {
      assert LastChars(ext, 4) == ext;
    }
  }

  /**
   * The classification, stated against the set of recognised extensions: a file is recognised
   * exactly when its last four characters are the last four of one of them, and then it is
   * classified as that extension.
   */
  lemma EndingSpec(file: string)
    ensures var r := Ending(file);
      && (r.Some? ==> r.value in InputExtensions && LastChars(r.value, 4) == LastChars(file, 4))
      && (r.None? ==> forall e :: e in InputExtensions ==> LastChars(e, 4) != LastChars(file, 4))
  {
    var tail := LastChars(file, 4);
    var r := Ending(file);
    if r.Some? {
      if tail == "jpeg" {
        assert LastChars(".jpeg", 4) == "jpeg";
      } else if tail == "tiff" {
        assert LastChars(".tiff", 4) == "tiff";
      } else {
        assert |tail| == 4;
      }
    } else {
      forall e | e in InputExtensions ensures LastChars(e, 4) != tail {
        ClassifyOwnTail(e);
      }
    }
  }

  /** Every recognised extension is four or five characters long. */
  lemma ExtensionLength(ext: string)
    requires ext in InputExtensions
    ensures 4 <= |ext| <= 5
  {
  }

  /** A file's own name ending in a recognised extension is classified as that extension. */
  lemma EndingOfExtension(stem: string, ext: string)
    requires ext in InputExtensions
    ensures Ending(stem + ext) == Some(ext)
  {
    ExtensionLength(ext);
    LastCharsAppend(stem, ext, 4);
    ClassifyOwnTail(ext);
  }

  /**
   * Naming round trip: when the stem neither starts nor ends with a character of the
   * extension, the output name is the stem followed by the format.
   */
  lemma OutputNameOfCleanStem(stem: string, ext: string, format: string)
    requires ext in InputExtensions
    requires stem != [] ==> stem[0] !in ext && stem[|stem| - 1] !in ext
    ensures Ending(stem + ext) == Some(ext)
    ensures Target(stem + ext, format) == Some(stem + format)
  {
    EndingOfExtension(stem, ext);
    StripOwnSuffix(stem, ext);
  }

  /** The character-set strip of ".png" from "pig.png" leaves only the "i". */
  lemma StripOfPig()
    ensures Strip("pig.png", ".png") == "i"
  {
    StripWindow("pig.png", ".png", 1, 2);
    assert "pig.png"[1..2] == "i";
  }

  /** The strip eats stem characters too: "pig.png" loses its leading p and its trailing g. */
  lemma OutputNameEatsStem()
    ensures Ending("pig.png") == Some(".png")
    ensures Target("pig.png", ".jpeg") == Some("i.jpeg")
  {
    assert Ending("pig.png") == Some(".png") by {
      EndingOfExtension("pig", ".png");
      assert "pig" + ".png" == "pig.png";
    }
    StripOfPig();
    assert "i" + ".jpeg" == "i.jpeg";
  }

  /** A name ending in "jpeg" without a dot is recognised, and the strip takes a leading "p". */
  lemma EndingWithoutDot()
    ensures Ending("photojpeg") == Some(".jpeg")
    ensures Target("photojpeg", ".png") == Some("hoto.png")
  {
    assert LastChars("photojpeg", 4) == "jpeg";
    StripWindow("photojpeg", ".jpeg", 1, 5);
    assert "photojpeg"[1..5] + ".png" == "hoto.png";
  }

  // ---------------------------------------------------------------------------------------------
  // One file of the loop

  /** The two emissions made before the image is opened. */
  function EditingSteps(file: string): seq<Step>
  {
    [Emit(StatusText(EditingNow(file))), Emit(ImageToDisplay(file))]
  }

  /** The save under the destination directory and the two emissions after it. */
  function SavedSteps(file: string, editedPath: string, newFilename: string): seq<Step>
  {
    [Save(file, editedPath, newFilename), Emit(StatusText(SavedAs(newFilename))),
     Emit(FileProcessed)]
  }

  /**
   * One iteration of the loop over the source listing, for a file whose output name is target
   * (None when the file is skipped), against the destination snapshot existing.
   */
  function FileSteps(file: string, target: Option<string>, existing: seq<string>, editedPath: string,
                     willDelete: bool, disk: Disk): (r: Outcome)
    ensures target.None? ==> r == Outcome([], false)
  {
    match target
    case None => Outcome([], false)
    case Some(newFilename) =>
      if newFilename !in existing then
        if file in disk.failsToConvert then Outcome(EditingSteps(file), true)
        else RemoveIf(EditingSteps(file) + SavedSteps(file, editedPath, newFilename), willDelete, file, disk)
      else RemoveIf([], willDelete, file, disk)
  }

  /** A step a file's iteration may take: no count, start, verdict or finish signal. */
  predicate PerFileStep(s: Step)
  {
    s.Emit? ==> s.signal.StatusText? || s.signal.ImageToDisplay? || s.signal == FileProcessed
  }

  /** Every step of the trace is a per-file step. */
  predicate PerFile(t: seq<Step>)
  {
    forall k :: 0 <= k < |t| ==> PerFileStep(t[k])
  }

  /** The save the collision rule promises for one file with output name target. */
  function ExpectedSave(file: string, target: Option<string>, existing: seq<string>, editedPath: string): seq<Step>
  {
    if target.Some? && target.value !in existing then [Save(file, editedPath, target.value)] else []
  }

  /** The filters on the two emissions before the image is opened. */
  lemma EditingStepsFilters(file: string)
    ensures SavesOf(EditingSteps(file)) == [] && RemovesOf(EditingSteps(file)) == []
    ensures CountProcessed(EditingSteps(file)) == 0
  {
    var e := EditingSteps(file);
    assert e == [e[0]] + [e[1]];
    FiltersSingle(e[0]);
    FiltersSingle(e[1]);
    FiltersAppend([e[0]], [e[1]]);
  }

  /** The filters on the save and the two emissions after it. */
  lemma SavedStepsFilters(file: string, editedPath: string, newFilename: string)
    ensures SavesOf(SavedSteps(file, editedPath, newFilename)) == [Save(file, editedPath, newFilename)]
    ensures RemovesOf(SavedSteps(file, editedPath, newFilename)) == []
    ensures CountProcessed(SavedSteps(file, editedPath, newFilename)) == 1
  {
    var v := SavedSteps(file, editedPath, newFilename);
    assert v == [v[0]] + ([v[1]] + [v[2]]);
    FiltersSingle(v[0]);
    FiltersSingle(v[1]);
    FiltersSingle(v[2]);
    FiltersAppend([v[1]], [v[2]]);
    FiltersAppend([v[0]], [v[1]] + [v[2]]);
  }

  /** The filters on a trace that may end with a removal. */
  lemma RemoveIfFilters(done: seq<Step>, delete: bool, file: string, disk: Disk)
    ensures var t := RemoveIf(done, delete, file, disk).trace;
      && SavesOf(t) == SavesOf(done)
      && CountProcessed(t) == CountProcessed(done)
      && RemovesOf(t) == RemovesOf(done) + (if delete && file !in disk.failsToRemove then [Remove(file)] else [])
  {
    FiltersSingle(Remove(file));
    FiltersAppend(done, [Remove(file)]);
  }

  /** An iteration takes only per-file steps. */
  lemma FileStepsArePerFile(file: string, target: Option<string>, existing: seq<string>, editedPath: string,
                            willDelete: bool, disk: Disk)
    ensures PerFile(FileSteps(file, target, existing, editedPath, willDelete, disk).trace)
  {
  }

  /**
   * `case _: continue`: a file whose last four characters are those of no recognised extension
   * gets no output name and its iteration takes no step, whatever the snapshot and the checkbox.
   */
  lemma UnrecognisedSkipped(file: string, format: string, existing: seq<string>, editedPath: string,
                            willDelete: bool, disk: Disk)
    requires forall e :: e in InputExtensions ==> LastChars(e, 4) != LastChars(file, 4)
    ensures Target(file, format) == None
    ensures FileSteps(file, Target(file, format), existing, editedPath, willDelete, disk) == Outcome([], false)
  {
    EndingSpec(file);
  }

  /** When an iteration raises: on a codec failure of a converted file, or on a failing removal. */
  lemma FileStepsRaise(file: string, target: Option<string>, existing: seq<string>, editedPath: string,
                       willDelete: bool, disk: Disk)
    ensures FileSteps(file, target, existing, editedPath, willDelete, disk).raised
        <==> (target.Some? && target.value !in existing && file in disk.failsToConvert)
             || (target.Some? && willDelete && file in disk.failsToRemove)
  {
  }

  /**
   * What one iteration saves, removes and counts: the save the collision rule promises unless
   * the codec fails, one file_processed per save, and the removal of every recognised file
   * when the checkbox is set and nothing raised.
   */
  lemma FileStepsFacts(file: string, target: Option<string>, existing: seq<string>, editedPath: string,
                       willDelete: bool, disk: Disk)
    ensures var r := FileSteps(file, target, existing, editedPath, willDelete, disk);
      && SavesOf(r.trace) == (if file in disk.failsToConvert then [] else ExpectedSave(file, target, existing, editedPath))
      && CountProcessed(r.trace) == |SavesOf(r.trace)|
      && RemovesOf(r.trace) == (if willDelete && target.Some? && !r.raised then [Remove(file)] else [])
  {
    match target
    case None =>
    case Some(name) =>
      if name !in existing {
        EditingStepsFilters(file);
        if file !in disk.failsToConvert {
          var e := EditingSteps(file);
          var v := SavedSteps(file, editedPath, name);
          SavedStepsFilters(file, editedPath, name);
          FiltersAppend(e, v);
          RemoveIfFilters(e + v, willDelete, file, disk);
        }
      } else {
        RemoveIfFilters([], willDelete, file, disk);
      }
  }

  /** Within one iteration the removal, if any, is the last step. */
  lemma RemoveIsLast(file: string, target: Option<string>, existing: seq<string>, editedPath: string,
                     willDelete: bool, disk: Disk)
    ensures var t := FileSteps(file, target, existing, editedPath, willDelete, disk).trace;
      forall k :: 0 <= k < |t| && t[k].Remove? ==> k == |t| - 1 && t[k] == Remove(file)
  {
  }

  /**
   * Event order for a converted file: "Editing", preview, the save as `f"{editedPath}/{name}"`,
   * "Saved as", file_processed, then the removal when the checkbox is set.
   */
  lemma ConvertedFileOrder(file: string, name: string, existing: seq<string>, editedPath: string,
                           willDelete: bool, disk: Disk)
    requires name !in existing && file !in disk.failsToConvert
    ensures var t := FileSteps(file, Some(name), existing, editedPath, willDelete, disk).trace;
      && |t| >= 5
      && t[..5] == [Emit(StatusText(EditingNow(file))), Emit(ImageToDisplay(file)),
                    Save(file, editedPath, name), Emit(StatusText(SavedAs(name))),
                    Emit(FileProcessed)]
      && t[5..] == (if willDelete && file !in disk.failsToRemove then [Remove(file)] else [])
  {
  }

  // ---------------------------------------------------------------------------------------------
  // The loop over the source listing

  /** A source entry together with the output name it gets (None when it is skipped). */
  datatype Entry = Entry(file: string, target: Option<string>)

  /** The source listing, each entry paired with its output name under format. */
  function Plan(files: seq<string>, format: string): (r: seq<Entry>)
    ensures |r| == |files|
    ensures forall k :: 0 <= k < |r| ==> r[k] == Entry(files[k], Target(files[k], format))
  {
    if files == [] then [] else [Entry(files[0], Target(files[0], format))] + Plan(files[1..], format)
  }

  /** `for file in rawFiles:` — each iteration in listing order; an exception ends the loop. */
  function ConvertLoop(entries: seq<Entry>, existing: seq<string>, editedPath: string,
                       willDelete: bool, disk: Disk): Outcome
  {
    if entries == [] then Outcome([], false)
    else
      var first := FileSteps(entries[0].file, entries[0].target, existing, editedPath, willDelete, disk);
      if first.raised then first
      else Then(first.trace, ConvertLoop(entries[1..], existing, editedPath, willDelete, disk))
  }

  /** Reference: the saves of a run that meets no failure, in listing order. */
  function ExpectedSaves(entries: seq<Entry>, existing: seq<string>, editedPath: string): (r: seq<Step>)
    ensures |r| <= |entries|
  {
    if entries == [] then []
    else ExpectedSave(entries[0].file, entries[0].target, existing, editedPath)
         + ExpectedSaves(entries[1..], existing, editedPath)
  }

  /** Reference: the removals of a run with the checkbox set: every recognised file, in order. */
  function ExpectedRemoves(entries: seq<Entry>): (r: seq<Step>)
    ensures |r| <= |entries|
  {
    if entries == [] then []
    else (if entries[0].target.Some? then [Remove(entries[0].file)] else []) + ExpectedRemoves(entries[1..])
  }

  /** The plan of a concatenation is the concatenation of the plans. */
  lemma PlanAppend(a: seq<string>, b: seq<string>, format: string)
    ensures Plan(a + b, format) == Plan(a, format) + Plan(b, format)
  {
    var l := Plan(a + b, format);
    var r := Plan(a, format) + Plan(b, format);
    forall k | 0 <= k < |l| ensures l[k] == r[k] {
      if k < |a| {
        assert (a + b)[k] == a[k];
      } else {
        assert (a + b)[k] == b[k - |a|];
      }
    }
  }

  /** The plan of a listing split around one file. */
  lemma PlanSplit(pre: seq<string>, file: string, post: seq<string>, format: string)
    ensures Plan(pre + [file] + post, format) == Plan(pre, format) + [Entry(file, Target(file, format))] + Plan(post, format)
  {
    PlanAppend(pre + [file], post, format);
    PlanAppend(pre, [file], format);
  }

  /** The loop from position k on: the iteration for entries[k], then the rest unless it raised. */
  lemma ConvertLoopAt(entries: seq<Entry>, k: nat, existing: seq<string>, editedPath: string,
                      willDelete: bool, disk: Disk)
    requires k < |entries|
    ensures var first := FileSteps(entries[k].file, entries[k].target, existing, editedPath, willDelete, disk);
      ConvertLoop(entries[k..], existing, editedPath, willDelete, disk)
        == if first.raised then first
           else Then(first.trace, ConvertLoop(entries[k + 1..], existing, editedPath, willDelete, disk))
  {
    assert entries[k..][0] == entries[k];
    assert entries[k..][1..] == entries[k + 1..];
  }

  /** Concatenating two traces of per-file steps gives one. */
  lemma PerFileAppend(a: seq<Step>, b: seq<Step>)
    requires PerFile(a) && PerFile(b)
    ensures PerFile(a + b)
  {
    forall k | 0 <= k < |a + b| ensures PerFileStep((a + b)[k]) {
      if k >= |a| {
        assert (a + b)[k] == b[k - |a|];
      }
    }
  }

  /** The loop emits only per-file steps. */
  lemma {:induction false} LoopOnlyFileSteps(entries: seq<Entry>, existing: seq<string>, editedPath: string,
                                             willDelete: bool, disk: Disk)
    ensures PerFile(ConvertLoop(entries, existing, editedPath, willDelete, disk).trace)
  {
    if entries != [] {
      var first := FileSteps(entries[0].file, entries[0].target, existing, editedPath, willDelete, disk);
      FileStepsArePerFile(entries[0].file, entries[0].target, existing, editedPath, willDelete, disk);
      LoopOnlyFileSteps(entries[1..], existing, editedPath, willDelete, disk);
      if !first.raised {
        PerFileAppend(first.trace, ConvertLoop(entries[1..], existing, editedPath, willDelete, disk).trace);
      }
    }
  }

  /**
   * Collision rule over the whole loop: the saves are a prefix of the reference saves (all of
   * them when nothing raised), and one file_processed is emitted per save.
   */
  lemma {:induction false} LoopSaves(entries: seq<Entry>, existing: seq<string>, editedPath: string,
                                     willDelete: bool, disk: Disk)
    ensures var r := ConvertLoop(entries, existing, editedPath, willDelete, disk);
      && SavesOf(r.trace) <= ExpectedSaves(entries, existing, editedPath)
      && (!r.raised ==> SavesOf(r.trace) == ExpectedSaves(entries, existing, editedPath))
      && CountProcessed(r.trace) == |SavesOf(r.trace)|
  {
    if entries != [] {
      var e := entries[0];
      var first := FileSteps(e.file, e.target, existing, editedPath, willDelete, disk);
      var rest := ConvertLoop(entries[1..], existing, editedPath, willDelete, disk);
      var expected := ExpectedSaves(entries[1..], existing, editedPath);
      FileStepsFacts(e.file, e.target, existing, editedPath, willDelete, disk);
      FileStepsRaise(e.file, e.target, existing, editedPath, willDelete, disk);
      LoopSaves(entries[1..], existing, editedPath, willDelete, disk);
      if first.raised {
        PrefixAfter(SavesOf(first.trace), [], expected);
      } else {
        FiltersAppend(first.trace, rest.trace);
        PrefixAfter(SavesOf(first.trace), SavesOf(rest.trace), expected);
      }
    }
  }

  /**
   * Deletion rule over the whole loop: nothing is removed with the checkbox clear; with it set
   * the removals are a prefix of "every recognised file" (all of them when nothing raised),
   * whether or not the file was skipped for collision.
   */
  lemma {:induction false} LoopRemoves(entries: seq<Entry>, existing: seq<string>, editedPath: string,
                                       willDelete: bool, disk: Disk)
    ensures var r := ConvertLoop(entries, existing, editedPath, willDelete, disk);
      && (!willDelete ==> RemovesOf(r.trace) == [])
      && RemovesOf(r.trace) <= ExpectedRemoves(entries)
      && (!r.raised && willDelete ==> RemovesOf(r.trace) == ExpectedRemoves(entries))
  {
    if entries != [] {
      var e := entries[0];
      var first := FileSteps(e.file, e.target, existing, editedPath, willDelete, disk);
      var rest := ConvertLoop(entries[1..], existing, editedPath, willDelete, disk);
      FileStepsFacts(e.file, e.target, existing, editedPath, willDelete, disk);
      LoopRemoves(entries[1..], existing, editedPath, willDelete, disk);
      if first.raised {
        PrefixAfter(RemovesOf(first.trace), [], ExpectedRemoves(entries[1..]));
      } else {
        FiltersAppend(first.trace, rest.trace);
        PrefixAfter(RemovesOf(first.trace), RemovesOf(rest.trace), ExpectedRemoves(entries[1..]));
      }
    }
  }

  /** An exception in one iteration ends the loop: no later entry is touched. */
  lemma {:induction false} LoopAbortsAt(pre: seq<Entry>, e: Entry, post: seq<Entry>, existing: seq<string>,
                                        editedPath: string, willDelete: bool, disk: Disk)
    requires !ConvertLoop(pre, existing, editedPath, willDelete, disk).raised
    requires FileSteps(e.file, e.target, existing, editedPath, willDelete, disk).raised
    ensures ConvertLoop(pre + [e] + post, existing, editedPath, willDelete, disk)
         == Then(ConvertLoop(pre, existing, editedPath, willDelete, disk).trace,
                 FileSteps(e.file, e.target, existing, editedPath, willDelete, disk))
  {
    var entries := pre + [e] + post;
    if pre == [] {
      assert entries[0] == e;
    } else {
      assert entries[0] == pre[0];
      assert entries[1..] == pre[1..] + [e] + post;
      LoopAbortsAt(pre[1..], e, post, existing, editedPath, willDelete, disk);
      var first := FileSteps(pre[0].file, pre[0].target, existing, editedPath, willDelete, disk);
      ThenThen(first.trace, ConvertLoop(pre[1..], existing, editedPath, willDelete, disk).trace,
               FileSteps(e.file, e.target, existing, editedPath, willDelete, disk));
    }
  }

  /** With the checkbox clear, a loop in which no entry converts emits nothing. */
  lemma {:induction false} LoopConvertsNothing(entries: seq<Entry>, existing: seq<string>, editedPath: string,
                                               disk: Disk)
    requires forall k :: 0 <= k < |entries| && entries[k].target.Some? ==> entries[k].target.value in existing
    ensures ConvertLoop(entries, existing, editedPath, false, disk) == Outcome([], false)
  {
    if entries != [] {
      assert entries[0].target.Some? ==> entries[0].target.value in existing;
      forall k | 0 <= k < |entries[1..]| && entries[1..][k].target.Some?
        ensures entries[1..][k].target.value in existing
      {
        assert entries[1..][k] == entries[k + 1];
      }
      LoopConvertsNothing(entries[1..], existing, editedPath, disk);
    }
  }

  /** The destination snapshot is never updated: two sources with one output name are both saved. */
  lemma SnapshotNotUpdated(f1: string, f2: string, existing: seq<string>, editedPath: string, format: string)
    requires Converts(f1, existing, format) && Target(f2, format) == Target(f1, format)
    ensures var name := Target(f1, format).value;
      ExpectedSaves(Plan([f1, f2], format), existing, editedPath) == [Save(f1, editedPath, name), Save(f2, editedPath, name)]
  {
    var p := Plan([f1, f2], format);
    assert p[1..][1..] == [];
  }

  // ---------------------------------------------------------------------------------------------
  // The whole call

  /**
   * `convertScreenshots`: nothing unless both paths are set; then the destination and source
   * listings (a missing directory raises), the file count, and the loop.
   */
  function ConvertJob(rawPath: string, editedPath: string, format: string, willDelete: bool, disk: Disk): (r: Outcome)
    ensures rawPath == "" || editedPath == "" ==> r == Outcome([], false)
  {
    if rawPath == "" || editedPath == "" then Outcome([], false)
    else if editedPath !in disk.dirs || rawPath !in disk.dirs then Outcome([], true)
    else
      var rawFiles := disk.dirs[rawPath];
      Then([Emit(FileCount(|rawFiles|))],
           ConvertLoop(Plan(rawFiles, format), disk.dirs[editedPath], editedPath, willDelete, disk))
  }

  /** Both paths set and both directories readable. */
  predicate Listable(rawPath: string, editedPath: string, disk: Disk)
  {
    rawPath != "" && editedPath != "" && rawPath in disk.dirs && editedPath in disk.dirs
  }

  /**
   * The count of source entries, recognised or not, is emitted first and once; every later
   * step belongs to a file; file_processed is emitted at most that many times.
   */
  lemma JobCountFirst(rawPath: string, editedPath: string, format: string, willDelete: bool, disk: Disk)
    requires Listable(rawPath, editedPath, disk)
    ensures var t := ConvertJob(rawPath, editedPath, format, willDelete, disk).trace;
      && |t| >= 1 && t[0] == Emit(FileCount(|disk.dirs[rawPath]|))
      && (forall k :: 1 <= k < |t| ==> PerFileStep(t[k]))
      && CountProcessed(t) <= |disk.dirs[rawPath]|
  {
    var files := disk.dirs[rawPath];
    var plan := Plan(files, format);
    var existing := disk.dirs[editedPath];
    var loop := ConvertLoop(plan, existing, editedPath, willDelete, disk);
    LoopOnlyFileSteps(plan, existing, editedPath, willDelete, disk);
    LoopSaves(plan, existing, editedPath, willDelete, disk);
    FiltersSingle(Emit(FileCount(|files|)));
    FiltersAppend([Emit(FileCount(|files|))], loop.trace);
    var t := [Emit(FileCount(|files|))] + loop.trace;
    forall k | 1 <= k < |t| ensures PerFileStep(t[k]) {
      assert t[k] == loop.trace[k - 1];
    }
  }

  /**
   * Collision and deletion rules for the whole call, against the destination snapshot taken
   * before the loop.
   */
  lemma JobFileActions(rawPath: string, editedPath: string, format: string, willDelete: bool, disk: Disk)
    requires Listable(rawPath, editedPath, disk)
    ensures var r := ConvertJob(rawPath, editedPath, format, willDelete, disk);
      var plan := Plan(disk.dirs[rawPath], format);
      var saves := ExpectedSaves(plan, disk.dirs[editedPath], editedPath);
      && SavesOf(r.trace) <= saves
      && (!r.raised ==> SavesOf(r.trace) == saves)
      && (!willDelete ==> RemovesOf(r.trace) == [])
      && RemovesOf(r.trace) <= ExpectedRemoves(plan)
      && (!r.raised && willDelete ==> RemovesOf(r.trace) == ExpectedRemoves(plan))
  {
    var files := disk.dirs[rawPath];
    var plan := Plan(files, format);
    var existing := disk.dirs[editedPath];
    var loop := ConvertLoop(plan, existing, editedPath, willDelete, disk);
    LoopSaves(plan, existing, editedPath, willDelete, disk);
    LoopRemoves(plan, existing, editedPath, willDelete, disk);
    FiltersSingle(Emit(FileCount(|files|)));
    FiltersAppend([Emit(FileCount(|files|))], loop.trace);
  }

  /**
   * Running again over a destination that holds every output name, with the checkbox clear,
   * converts nothing: only the count is emitted.
   */
  lemma RerunConvertsNothing(rawPath: string, editedPath: string, format: string, disk: Disk)
    requires Listable(rawPath, editedPath, disk)
    requires forall k :: 0 <= k < |disk.dirs[rawPath]| ==> !Converts(disk.dirs[rawPath][k], disk.dirs[editedPath], format)
    ensures ConvertJob(rawPath, editedPath, format, false, disk) == Outcome([Emit(FileCount(|disk.dirs[rawPath]|))], false)
  {
    var plan := Plan(disk.dirs[rawPath], format);
    LoopConvertsNothing(plan, disk.dirs[editedPath], editedPath, disk);
  }

  /** With both directories listable, the call is the count followed by the loop over the plan. */
  lemma JobIsLoop(rawPath: string, editedPath: string, format: string, willDelete: bool, disk: Disk,
                  files: seq<string>, plan: seq<Entry>, steps: seq<Step>, raised: bool)
    requires Listable(rawPath, editedPath, disk) && disk.dirs[rawPath] == files && Plan(files, format) == plan
    requires ConvertLoop(plan, disk.dirs[editedPath], editedPath, willDelete, disk) == Outcome(steps, raised)
    ensures ConvertJob(rawPath, editedPath, format, willDelete, disk)
         == Outcome([Emit(FileCount(|files|))] + steps, raised)
  {
  }

  /** Every entry the collision rule converts has its save in the reference saves. */
  lemma {:induction false} ExpectedSavesHas(entries: seq<Entry>, existing: seq<string>, editedPath: string, k: nat)
    requires k < |entries| && entries[k].target.Some? && entries[k].target.value !in existing
    ensures Save(entries[k].file, editedPath, entries[k].target.value) in ExpectedSaves(entries, existing, editedPath)
  {
    if k > 0 {
      assert entries[1..][k - 1] == entries[k];
      ExpectedSavesHas(entries[1..], existing, editedPath, k - 1);
    }
  }

  /**
   * Running twice with the checkbox clear: once the destination lists everything it listed
   * before and every name the first run saved, the second run converts nothing. The source
   * and destination must differ (see OneDirectoryReconverts).
   */
  lemma RunTwiceConvertsNothing(rawPath: string, editedPath: string, format: string, disk: Disk,
                                existing2: seq<string>)
    requires Listable(rawPath, editedPath, disk) && rawPath != editedPath
    requires !ConvertJob(rawPath, editedPath, format, false, disk).raised
    requires forall n :: n in disk.dirs[editedPath] ==> n in existing2
    requires forall f, n :: Save(f, editedPath, n) in SavesOf(ConvertJob(rawPath, editedPath, format, false, disk).trace)
                            ==> n in existing2
    ensures ConvertJob(rawPath, editedPath, format, false, disk.(dirs := disk.dirs[editedPath := existing2]))
         == Outcome([Emit(FileCount(|disk.dirs[rawPath]|))], false)
  {
    var raw := disk.dirs[rawPath];
    var existing := disk.dirs[editedPath];
    var plan := Plan(raw, format);
    JobFileActions(rawPath, editedPath, format, false, disk);
    assert SavesOf(ConvertJob(rawPath, editedPath, format, false, disk).trace) == ExpectedSaves(plan, existing, editedPath);
    var disk2 := disk.(dirs := disk.dirs[editedPath := existing2]);
    forall k | 0 <= k < |raw| ensures !Converts(raw[k], existing2, format) {
      assert plan[k] == Entry(raw[k], Target(raw[k], format));
      if Target(raw[k], format).Some? && Target(raw[k], format).value !in existing {
        ExpectedSavesHas(plan, existing, editedPath, k);
      }
    }
    assert disk2.dirs[rawPath] == raw && disk2.dirs[editedPath] == existing2;
    RerunConvertsNothing(rawPath, editedPath, format, disk2);
  }

  /** The character-set strip of ".jpeg" from "ie.jpeg" leaves only the "i". */
  lemma StripOfIe()
    ensures Strip("ie.jpeg", ".jpeg") == "i"
  {
    StripWindow("ie.jpeg", ".jpeg", 0, 1);
    assert "ie.jpeg"[0..1] == "i";
  }

  /** "ie.png" is named "ie.jpeg". */
  lemma NameOfIePng()
    ensures Target("ie.png", ".jpeg") == Some("ie.jpeg")
  {
    OutputNameOfCleanStem("ie", ".png", ".jpeg");
    assert "ie" + ".png" == "ie.png" && "ie" + ".jpeg" == "ie.jpeg";
  }

  /** "ie.jpeg" is named "i.jpeg": the strip of ".jpeg" eats the stem's "e". */
  lemma NameOfIeJpeg()
    ensures Target("ie.jpeg", ".jpeg") == Some("i.jpeg")
  {
    assert Ending("ie.jpeg") == Some(".jpeg") by {
      EndingOfExtension("ie", ".jpeg");
      assert "ie" + ".jpeg" == "ie.jpeg";
    }
    StripOfIe();
    assert "i" + ".jpeg" == "i.jpeg";
  }

  /** "ie.png" becomes "ie.jpeg", and "ie.jpeg" in turn becomes "i.jpeg". */
  lemma NamesOfIe()
    ensures Target("ie.png", ".jpeg") == Some("ie.jpeg")
    ensures Target("ie.jpeg", ".jpeg") == Some("i.jpeg")
  {
    NameOfIePng();
    NameOfIeJpeg();
  }

  /** The first run in one directory holding "ie.png" saves "ie.jpeg" next to it. */
  lemma OneDirectoryFirstRun(dir: string, disk: Disk)
    requires dir != "" && dir in disk.dirs && disk.dirs[dir] == ["ie.png"] && disk.failsToConvert == {}
    ensures ConvertJob(dir, dir, ".jpeg", false, disk)
         == Outcome([Emit(FileCount(1)), Emit(StatusText(EditingNow("ie.png"))), Emit(ImageToDisplay("ie.png")),
                     Save("ie.png", dir, "ie.jpeg"), Emit(StatusText(SavedAs("ie.jpeg"))), Emit(FileProcessed)], false)
  {
    var e := Entry("ie.png", Some("ie.jpeg"));
    var converted := [Emit(StatusText(EditingNow("ie.png"))), Emit(ImageToDisplay("ie.png")),
                      Save("ie.png", dir, "ie.jpeg"), Emit(StatusText(SavedAs("ie.jpeg"))), Emit(FileProcessed)];
    assert Plan(disk.dirs[dir], ".jpeg") == [e] by {
      NamesOfIe();
      PlanOfOne("ie.png", ".jpeg");
    }
    assert ConvertLoop([e], disk.dirs[dir], dir, false, disk) == Outcome(converted, false) by {
      assert ConvertLoop([e], disk.dirs[dir], dir, false, disk)
          == FileSteps("ie.png", Some("ie.jpeg"), disk.dirs[dir], dir, false, disk);
    }
    JobIsLoop(dir, dir, ".jpeg", false, disk, disk.dirs[dir], [e], converted, false);
  }

  /** The listing ["ie.png", "ie.jpeg"] planned for JPEG output. */
  lemma PlanOfIeTwice()
    ensures Plan(["ie.png", "ie.jpeg"], ".jpeg") == [Entry("ie.png", Some("ie.jpeg")), Entry("ie.jpeg", Some("i.jpeg"))]
  {
    NamesOfIe();
    PlanAppend(["ie.png"], ["ie.jpeg"], ".jpeg");
    PlanOfOne("ie.png", ".jpeg");
    PlanOfOne("ie.jpeg", ".jpeg");
    assert ["ie.png", "ie.jpeg"] == ["ie.png"] + ["ie.jpeg"];
  }

  /** The loop of the second run in that directory: only the second entry converts. */
  lemma OneDirectorySecondLoop(dir: string, disk: Disk)
    requires disk.failsToConvert == {}
    ensures ConvertLoop([Entry("ie.png", Some("ie.jpeg")), Entry("ie.jpeg", Some("i.jpeg"))], ["ie.png", "ie.jpeg"],
                        dir, false, disk)
         == Outcome([Emit(StatusText(EditingNow("ie.jpeg"))), Emit(ImageToDisplay("ie.jpeg")),
                     Save("ie.jpeg", dir, "i.jpeg"), Emit(StatusText(SavedAs("i.jpeg"))), Emit(FileProcessed)], false)
  {
    var files := ["ie.png", "ie.jpeg"];
    var e2 := Entry("ie.jpeg", Some("i.jpeg"));
    var plan := [Entry("ie.png", Some("ie.jpeg")), e2];
    assert plan[1..] == [e2];
    assert FileSteps("ie.png", Some("ie.jpeg"), files, dir, false, disk) == Outcome([], false);
    assert ConvertLoop([e2], files, dir, false, disk) == FileSteps("ie.jpeg", Some("i.jpeg"), files, dir, false, disk);
  }

  /**
   * With the source directory as destination the call is not idempotent: the second run skips
   * "ie.png" but converts the "ie.jpeg" the first run wrote, to "i.jpeg".
   */
  lemma OneDirectoryReconverts(dir: string, disk: Disk)
    requires dir != "" && dir in disk.dirs && disk.dirs[dir] == ["ie.png", "ie.jpeg"] && disk.failsToConvert == {}
    ensures ConvertJob(dir, dir, ".jpeg", false, disk)
         == Outcome([Emit(FileCount(2)), Emit(StatusText(EditingNow("ie.jpeg"))), Emit(ImageToDisplay("ie.jpeg")),
                     Save("ie.jpeg", dir, "i.jpeg"), Emit(StatusText(SavedAs("i.jpeg"))), Emit(FileProcessed)], false)
  {
    var plan := [Entry("ie.png", Some("ie.jpeg")), Entry("ie.jpeg", Some("i.jpeg"))];
    var converted := [Emit(StatusText(EditingNow("ie.jpeg"))), Emit(ImageToDisplay("ie.jpeg")),
                      Save("ie.jpeg", dir, "i.jpeg"), Emit(StatusText(SavedAs("i.jpeg"))), Emit(FileProcessed)];
    assert Plan(disk.dirs[dir], ".jpeg") == plan by { PlanOfIeTwice(); }
    assert ConvertLoop(plan, disk.dirs[dir], dir, false, disk) == Outcome(converted, false) by {
      OneDirectorySecondLoop(dir, disk);
    }
    JobIsLoop(dir, dir, ".jpeg", false, disk, disk.dirs[dir], plan, converted, false);
  }

  // ---------------------------------------------------------------------------------------------
  // Worker.run and the progress bar

  /** `Worker.run`: started(False), the call's own emissions, error or result, finished(True). */
  function Lifecycle(o: Outcome): seq<Step>
  {
    [Emit(Started(false))] + o.trace + [Emit(if o.raised then Error else Result), Emit(Finished(true))]
  }

  predicate IsStarted(s: Step) { s.Emit? && s.signal.Started? }
  predicate IsFinished(s: Step) { s.Emit? && s.signal.Finished? }
  predicate IsVerdict(s: Step) { s == Emit(Error) || s == Emit(Result) }

  /** No step of the call itself is a lifecycle signal. */
  lemma JobHasNoLifecycleSignal(rawPath: string, editedPath: string, format: string, willDelete: bool, disk: Disk)
    ensures var t := ConvertJob(rawPath, editedPath, format, willDelete, disk).trace;
      forall k :: 0 <= k < |t| ==> !IsStarted(t[k]) && !IsFinished(t[k]) && !IsVerdict(t[k])
  {
    if Listable(rawPath, editedPath, disk) {
      JobCountFirst(rawPath, editedPath, format, willDelete, disk);
    }
  }

  /**
   * The worker's trace starts with started(False) and ends with finished(True), each exactly
   * once, and holds exactly one verdict, just before the end: error iff the call raised.
   */
  lemma WorkerLifecycle(rawPath: string, editedPath: string, format: string, willDelete: bool, disk: Disk)
    ensures var o := ConvertJob(rawPath, editedPath, format, willDelete, disk);
      var t := Lifecycle(o);
      && |t| >= 3
      && t[0] == Emit(Started(false)) && t[|t| - 1] == Emit(Finished(true))
      && t[|t| - 2] == Emit(if o.raised then Error else Result)
      && (forall k :: 0 <= k < |t| ==> (IsStarted(t[k]) <==> k == 0))
      && (forall k :: 0 <= k < |t| ==> (IsFinished(t[k]) <==> k == |t| - 1))
      && (forall k :: 0 <= k < |t| ==> (IsVerdict(t[k]) <==> k == |t| - 2))
  {
    var o := ConvertJob(rawPath, editedPath, format, willDelete, disk);
    var t := Lifecycle(o);
    JobHasNoLifecycleSignal(rawPath, editedPath, format, willDelete, disk);
    forall k | 1 <= k < |t| - 2 ensures t[k] == o.trace[k - 1] {
    }
  }

  /**
   * An empty path field skips the whole body: nothing is listed, so the disk does not matter,
   * and the worker reports result, then finishes.
   */
  lemma EmptyPathDoesNothing(rawPath: string, editedPath: string, format: string, willDelete: bool,
                             disk1: Disk, disk2: Disk)
    requires rawPath == "" || editedPath == ""
    ensures ConvertJob(rawPath, editedPath, format, willDelete, disk1)
         == ConvertJob(rawPath, editedPath, format, willDelete, disk2)
    ensures Lifecycle(ConvertJob(rawPath, editedPath, format, willDelete, disk1))
         == [Emit(Started(false)), Emit(Result), Emit(Finished(true))]
  {
  }

  /**
   * Both paths set but a directory that cannot be entered: `os.chdir` raises before the count,
   * and the worker reports error, then finishes.
   */
  lemma MissingDirectoryFails(rawPath: string, editedPath: string, format: string, willDelete: bool, disk: Disk)
    requires rawPath != "" && editedPath != ""
    requires rawPath !in disk.dirs || editedPath !in disk.dirs
    ensures ConvertJob(rawPath, editedPath, format, willDelete, disk) == Outcome([], true)
    ensures Lifecycle(ConvertJob(rawPath, editedPath, format, willDelete, disk))
         == [Emit(Started(false)), Emit(Error), Emit(Finished(true))]
  {
  }

  /**
   * An exception in the iteration for one source entry ends the call there: the count, the
   * iterations before it, its own steps, and nothing for the entries listed after it.
   */
  lemma JobAbortsAt(rawPath: string, editedPath: string, format: string, willDelete: bool, disk: Disk,
                    pre: seq<string>, file: string, post: seq<string>)
    requires Listable(rawPath, editedPath, disk)
    requires disk.dirs[rawPath] == pre + [file] + post
    requires !ConvertLoop(Plan(pre, format), disk.dirs[editedPath], editedPath, willDelete, disk).raised
    requires FileSteps(file, Target(file, format), disk.dirs[editedPath], editedPath, willDelete, disk).raised
    ensures ConvertJob(rawPath, editedPath, format, willDelete, disk)
         == Then([Emit(FileCount(|pre| + 1 + |post|))]
                   + ConvertLoop(Plan(pre, format), disk.dirs[editedPath], editedPath, willDelete, disk).trace,
                 FileSteps(file, Target(file, format), disk.dirs[editedPath], editedPath, willDelete, disk))
  {
    var existing := disk.dirs[editedPath];
    var e := Entry(file, Target(file, format));
    PlanSplit(pre, file, post, format);
    LoopAbortsAt(Plan(pre, format), e, Plan(post, format), existing, editedPath, willDelete, disk);
    ThenThen([Emit(FileCount(|pre| + 1 + |post|))], ConvertLoop(Plan(pre, format), existing, editedPath, willDelete, disk).trace,
             FileSteps(file, e.target, existing, editedPath, willDelete, disk));
  }

  /** The worker's trace around a call that raised after count, before and steps. */
  lemma LifecycleOfRaise(count: seq<Step>, before: seq<Step>, steps: seq<Step>)
    ensures Lifecycle(Then(count + before, Outcome(steps, true)))
         == [Emit(Started(false))] + count + before + steps + [Emit(Error), Emit(Finished(true))]
  {
  }

  /** A file the codec cannot open, read or save stops right after the status and preview signals. */
  lemma FailedConversion(file: string, target: Option<string>, existing: seq<string>, editedPath: string,
                         willDelete: bool, disk: Disk)
    requires target.Some? && target.value !in existing && file in disk.failsToConvert
    ensures FileSteps(file, target, existing, editedPath, willDelete, disk) == Outcome(EditingSteps(file), true)
  {
  }

  /**
   * A codec failure on one file aborts the rest of the listing; the worker reports error and
   * still finishes.
   */
  lemma CodecFailureAborts(rawPath: string, editedPath: string, format: string, willDelete: bool, disk: Disk,
                           pre: seq<string>, file: string, post: seq<string>)
    requires Listable(rawPath, editedPath, disk)
    requires disk.dirs[rawPath] == pre + [file] + post
    requires Converts(file, disk.dirs[editedPath], format) && file in disk.failsToConvert
    requires !ConvertLoop(Plan(pre, format), disk.dirs[editedPath], editedPath, willDelete, disk).raised
    ensures Lifecycle(ConvertJob(rawPath, editedPath, format, willDelete, disk))
         == [Emit(Started(false)), Emit(FileCount(|pre| + 1 + |post|))]
            + ConvertLoop(Plan(pre, format), disk.dirs[editedPath], editedPath, willDelete, disk).trace
            + EditingSteps(file) + [Emit(Error), Emit(Finished(true))]
  {
    var existing := disk.dirs[editedPath];
    var count := [Emit(FileCount(|pre| + 1 + |post|))];
    var before := ConvertLoop(Plan(pre, format), existing, editedPath, willDelete, disk).trace;
    var steps := FileSteps(file, Target(file, format), existing, editedPath, willDelete, disk);
    assert steps == Outcome(EditingSteps(file), true) by {
      FailedConversion(file, Target(file, format), existing, editedPath, willDelete, disk);
    }
    assert ConvertJob(rawPath, editedPath, format, willDelete, disk) == Then(count + before, steps) by {
      JobAbortsAt(rawPath, editedPath, format, willDelete, disk, pre, file, post);
    }
    LifecycleOfRaise(count, before, EditingSteps(file));
  }

  /** updateProgressBar: from -1 (the reset value) to 1, otherwise one more. */
  function Advance(value: int): int
  {
    if value == -1 then value + 2 else value + 1
  }

  /** The value after k updates. */
  function AdvanceTimes(value: int, k: nat): int
    decreases k
  {
    if k == 0 then value else AdvanceTimes(Advance(value), k - 1)
  }

  /** From a non-negative value, k updates add k. */
  lemma {:induction false} AdvanceAdds(value: int, k: nat)
    requires value >= 0
    ensures AdvanceTimes(value, k) == value + k
    decreases k
  {
    if k > 0 {
      AdvanceAdds(value + 1, k - 1);
    }
  }

  /** After k >= 1 updates from the reset value -1 the bar shows k. */
  lemma AdvanceFromReset(k: nat)
    requires k >= 1
    ensures AdvanceTimes(-1, k) == k
  {
    AdvanceAdds(1, k - 1);
  }

  /**
   * QProgressBar.setValue, with the minimum 0 that the program never changes: a value outside
   * 0..maximum is ignored, except in the busy range 0..0, which takes any value.
   */
  function SetValue(value: int, newValue: int, maximum: int): int
  {
    if (newValue < 0 || newValue > maximum) && maximum != 0 then value else newValue
  }

  /**
   * QProgressBar.setMaximum(m) for m >= 0: the range becomes 0..m and, when it changed, a value
   * outside -1..m is reset to -1.
   */
  function SetMaximum(value: int, oldMaximum: int, maximum: nat): int
  {
    if maximum != oldMaximum && (value < -1 || value > maximum) then -1 else value
  }

  /** The value after k updates on a bar with the given maximum, range check included. */
  function CheckedTimes(value: int, maximum: int, k: nat): int
    decreases k
  {
    if k == 0 then value else CheckedTimes(SetValue(value, Advance(value), maximum), maximum, k - 1)
  }

  /** Below the maximum, each update adds one. */
  lemma {:induction false} CheckedAdds(value: int, maximum: int, k: nat)
    requires 0 <= value && value + k <= maximum
    ensures CheckedTimes(value, maximum, k) == value + k
    decreases k
  {
    if k > 0 {
      CheckedAdds(value + 1, maximum, k - 1);
    }
  }

  /** While at most maximum updates follow a reset, the range check never applies. */
  lemma CheckedFromReset(maximum: int, k: nat)
    requires k <= maximum
    ensures CheckedTimes(-1, maximum, k) == AdvanceTimes(-1, k)
  {
    if k > 0 {
      CheckedAdds(1, maximum, k - 1);
      AdvanceFromReset(k);
    }
  }

  /** At its maximum the bar ignores every further update. */
  lemma {:induction false} CheckedStaysAtMaximum(maximum: int, k: nat)
    requires maximum >= 1
    ensures CheckedTimes(maximum, maximum, k) == maximum
    decreases k
  {
    if k > 0 {
      CheckedStaysAtMaximum(maximum, k - 1);
    }
  }

  /** j + k updates are j updates followed by k more. */
  lemma {:induction false} CheckedSplit(value: int, maximum: int, j: nat, k: nat)
    ensures CheckedTimes(value, maximum, j + k) == CheckedTimes(CheckedTimes(value, maximum, j), maximum, k)
    decreases j
  {
    if j > 0 {
      CheckedSplit(SetValue(value, Advance(value), maximum), maximum, j - 1, k);
    }
  }

  /** More updates after a reset than the maximum leave the bar at the maximum. */
  lemma CheckedCapped(maximum: int, k: nat)
    requires 1 <= maximum <= k
    ensures CheckedTimes(-1, maximum, k) == maximum
  {
    CheckedSplit(-1, maximum, maximum, k - maximum);
    CheckedFromReset(maximum, maximum);
    AdvanceFromReset(maximum);
    CheckedStaysAtMaximum(maximum, k - maximum);
  }

  /**
   * In the program the check never applies: started resets the bar, fileCount sets the maximum
   * to the number of source entries, and the call emits no more file_processed than that.
   */
  lemma RangeCheckNeverApplies(rawPath: string, editedPath: string, format: string, willDelete: bool,
                               disk: Disk, oldMaximum: int)
    requires Listable(rawPath, editedPath, disk)
    ensures var n := CountProcessed(ConvertJob(rawPath, editedPath, format, willDelete, disk).trace);
      var m := |disk.dirs[rawPath]|;
      CheckedTimes(SetMaximum(-1, oldMaximum, m), m, n) == AdvanceTimes(-1, n)
  {
    JobCountFirst(rawPath, editedPath, format, willDelete, disk);
    CheckedFromReset(|disk.dirs[rawPath]|,
                     CountProcessed(ConvertJob(rawPath, editedPath, format, willDelete, disk).trace));
  }

  /**
   * The slots of startProcessingThread acting on the bar's value: started resets it to -1,
   * updated advances it, every other signal and step leaves it alone.
   */
  function ProgressAfter(t: seq<Step>, value: int): int
  {
    if t == [] then value
    else ProgressAfter(t[1..], if IsStarted(t[0]) then -1 else if t[0] == Emit(FileProcessed) then Advance(value) else value)
  }

  /** Without a reset in between, the bar advances once per file_processed. */
  lemma {:induction false} ProgressCountsProcessed(t: seq<Step>, value: int)
    requires forall k :: 0 <= k < |t| ==> !IsStarted(t[k])
    ensures ProgressAfter(t, value) == AdvanceTimes(value, CountProcessed(t))
  {
    if t != [] {
      ProgressCountsProcessed(t[1..], if t[0] == Emit(FileProcessed) then Advance(value) else value);
    }
  }

  /**
   * For any call that emits no started signal of its own, after the worker's trace the bar shows
   * the number of file_processed signals, or -1 when there was none.
   */
  lemma LifecycleProgress(o: Outcome, value: int)
    requires forall k :: 0 <= k < |o.trace| ==> !IsStarted(o.trace[k])
    ensures var n := CountProcessed(o.trace);
      ProgressAfter(Lifecycle(o), value) == if n == 0 then -1 else n
  {
    var closing := [Emit(if o.raised then Error else Result), Emit(Finished(true))];
    var tail := o.trace + closing;
    var t := Lifecycle(o);
    assert t == [Emit(Started(false))] + tail;
    assert t[1..] == tail;
    assert ProgressAfter(t, value) == ProgressAfter(tail, -1);
    forall k | 0 <= k < |tail| ensures !IsStarted(tail[k]) {
      if k >= |o.trace| {
        assert tail[k] == closing[k - |o.trace|];
      }
    }
    ProgressCountsProcessed(tail, -1);
    assert closing == [closing[0]] + [closing[1]];
    FiltersSingle(closing[0]);
    FiltersSingle(closing[1]);
    FiltersAppend([closing[0]], [closing[1]]);
    FiltersAppend(o.trace, closing);
    if CountProcessed(o.trace) > 0 {
      AdvanceFromReset(CountProcessed(o.trace));
    }
  }

  /**
   * Whatever the bar showed before, after the worker's trace it shows the number of converted
   * files, or -1 when none was converted.
   */
  lemma ProgressShowsConverted(rawPath: string, editedPath: string, format: string, willDelete: bool,
                               disk: Disk, value: int)
    ensures var o := ConvertJob(rawPath, editedPath, format, willDelete, disk);
      var n := |SavesOf(o.trace)|;
      ProgressAfter(Lifecycle(o), value) == if n == 0 then -1 else n
  {
    var o := ConvertJob(rawPath, editedPath, format, willDelete, disk);
    JobHasNoLifecycleSignal(rawPath, editedPath, format, willDelete, disk);
    LifecycleProgress(o, value);
    if Listable(rawPath, editedPath, disk) {
      var plan := Plan(disk.dirs[rawPath], format);
      var loop := ConvertLoop(plan, disk.dirs[editedPath], editedPath, willDelete, disk);
      LoopSaves(plan, disk.dirs[editedPath], editedPath, willDelete, disk);
      FiltersSingle(Emit(FileCount(|disk.dirs[rawPath]|)));
      FiltersAppend([Emit(FileCount(|disk.dirs[rawPath]|))], loop.trace);
    }
  }

  // ---------------------------------------------------------------------------------------------
  // Concrete runs

  /** The plan of a one-file listing. */
  lemma PlanOfOne(file: string, format: string)
    ensures Plan([file], format) == [Entry(file, Target(file, format))]
  {
  }

  /** The listing ["a.png"] planned for JPEG output. */
  lemma PlanOfAPng()
    ensures Plan(["a.png"], ".jpeg") == [Entry("a.png", Some("a.jpeg"))]
  {
    OutputNameOfCleanStem("a", ".png", ".jpeg");
    assert "a" + ".png" == "a.png" && "a" + ".jpeg" == "a.jpeg";
    PlanOfOne("a.png", ".jpeg");
  }

  /** One new PNG converted to JPEG: the exact trace, and the original kept. */
  lemma ScenarioConvertOne()
    ensures ConvertJob("raw", "out", ".jpeg", false, Disk(map["raw" := ["a.png"], "out" := []], {}, {}))
         == Outcome([Emit(FileCount(1)), Emit(StatusText(EditingNow("a.png"))), Emit(ImageToDisplay("a.png")),
                     Save("a.png", "out", "a.jpeg"), Emit(StatusText(SavedAs("a.jpeg"))), Emit(FileProcessed)], false)
  {
    var disk := Disk(map["raw" := ["a.png"], "out" := []], {}, {});
    PlanOfAPng();
    var e := Entry("a.png", Some("a.jpeg"));
    assert ConvertLoop([e], [], "out", false, disk) == FileSteps("a.png", Some("a.jpeg"), [], "out", false, disk);
  }

  /** An output name already present: nothing is converted, yet the original is removed. */
  lemma ScenarioCollisionStillDeletes()
    ensures ConvertJob("raw", "out", ".jpeg", true, Disk(map["raw" := ["a.png"], "out" := ["a.jpeg"]], {}, {}))
         == Outcome([Emit(FileCount(1)), Remove("a.png")], false)
  {
    var disk := Disk(map["raw" := ["a.png"], "out" := ["a.jpeg"]], {}, {});
    PlanOfAPng();
    var e := Entry("a.png", Some("a.jpeg"));
    assert ConvertLoop([e], ["a.jpeg"], "out", true, disk) == FileSteps("a.png", Some("a.jpeg"), ["a.jpeg"], "out", true, disk);
  }

  /** An unrecognised ending: the count only, no conversion and no removal. */
  lemma ScenarioUnrecognised()
    ensures ConvertJob("raw", "out", ".png", true, Disk(map["raw" := ["a.xyz"], "out" := []], {}, {}))
         == Outcome([Emit(FileCount(1))], false)
  {
    var disk := Disk(map["raw" := ["a.xyz"], "out" := []], {}, {});
    assert LastChars("a.xyz", 4) == ".xyz";
    PlanOfOne("a.xyz", ".png");
    var e := Entry("a.xyz", None);
    assert ConvertLoop([e], [], "out", true, disk) == FileSteps("a.xyz", None, [], "out", true, disk);
  }

  /** A codec failure: the call raises after the preview, and the original is not removed. */
  lemma ScenarioCodecFailure()
    ensures ConvertJob("raw", "out", ".jpeg", true, Disk(map["raw" := ["a.png"], "out" := []], {"a.png"}, {}))
         == Outcome([Emit(FileCount(1)), Emit(StatusText(EditingNow("a.png"))), Emit(ImageToDisplay("a.png"))], true)
  {
    var disk := Disk(map["raw" := ["a.png"], "out" := []], {"a.png"}, {});
    OutputNameOfCleanStem("a", ".png", ".jpeg");
    assert "a" + ".png" == "a.png" && "a" + ".jpeg" == "a.jpeg";
    PlanOfOne("a.png", ".jpeg");
    var e := Entry("a.png", Some("a.jpeg"));
    assert ConvertLoop([e], [], "out", true, disk) == FileSteps("a.png", Some("a.jpeg"), [], "out", true, disk);
  }

  // ---------------------------------------------------------------------------------------------
  // The window and the worker

  /** The parts of MainWindow the conversion reads or the progress slots write. */
  class MainWindow {
    var rawPath: string         // rawPathField.text()
    var editedPath: string      // editedPathField.text()
    var fileFormat: string      // fileFormatDropdown.currentText()
    var willDelete: bool        // willDelete.isChecked()
    var progressValue: int      // progressBar.value()
    var progressMaximum: int    // progressBar.maximum()

    /** A window whose fields hold the given texts; a fresh QProgressBar has value -1, maximum 100. */
    constructor (rawPath: string, editedPath: string, fileFormat: string, willDelete: bool)
      requires fileFormat in FileFormats
      ensures this.rawPath == rawPath && this.editedPath == editedPath
      ensures this.fileFormat == fileFormat && this.willDelete == willDelete
      ensures progressValue == -1 && progressMaximum == 100
    {
      this.rawPath := rawPath;
      this.editedPath := editedPath;
      this.fileFormat := fileFormat;
      this.willDelete := willDelete;
      progressValue := -1;
      progressMaximum := 100;
    }

    /** resetProgressBar: QProgressBar.reset puts the value back to one below the minimum 0. */
    method ResetProgressBar()
      modifies this`progressValue
      ensures progressValue == -1
    {
      progressValue := -1;
    }

    /** collateFilesToProcess: the file count becomes the bar's maximum, as setMaximum does it. */
    method CollateFilesToProcess(howMany: nat)
      modifies this`progressValue, this`progressMaximum
      ensures progressMaximum == howMany
      ensures progressValue == SetMaximum(old(progressValue), old(progressMaximum), howMany)
    {
      if howMany != progressMaximum && (progressValue < -1 || progressValue > howMany) {
        progressValue := -1;
      }
      progressMaximum := howMany;
    }

    /**
     * updateProgressBar: one step of the counter, which setValue ignores past the maximum. Below
     * the maximum the value advances and is at least 1; at or past it the value stays.
     */
    method UpdateProgressBar()
      modifies this`progressValue
      ensures progressValue == SetValue(old(progressValue), Advance(old(progressValue)), progressMaximum)
      ensures -1 <= old(progressValue) < progressMaximum ==>
                progressValue == Advance(old(progressValue)) && progressValue >= 1
      ensures 0 < progressMaximum <= old(progressValue) ==> progressValue == old(progressValue)
    {
      var value := progressValue;
      var newValue;
      if value == -1 {
        newValue := value + 2;
      } else {
        newValue := value + 1;
      }
      if 0 <= newValue <= progressMaximum || progressMaximum == 0 {
        progressValue := newValue;
      }
    }

    /**
     * The naming part of the loop body: the match on the last four characters, then
     * `f"{file.strip(ending)}{fileFormat}"`; None is `case _: continue`.
     */
    method NameFile(file: string) returns (target: Option<string>)
      ensures target == Target(file, fileFormat)
    {
      var ending := Ending(file);
      if ending.None? {
        return None;
      }
      var rawFilename := Strip(file, ending.value);
      var newFilename := rawFilename + fileFormat;
      return Some(newFilename);
    }

    /**
     * The rest of the loop body for one source entry whose output name is target: the steps it
     * takes and whether it raised. A skipped file takes no step.
     */
    method ConvertFile(file: string, target: Option<string>, existingFiles: seq<string>, edited: string, disk: Disk)
      returns (steps: seq<Step>, raised: bool)
      ensures Outcome(steps, raised) == FileSteps(file, target, existingFiles, edited, willDelete, disk)
    {
      steps := [];
      raised := false;
      if target.None? {
        return;
      }
      var newFilename := target.value;
      if newFilename !in existingFiles {
        steps := steps + [Emit(StatusText(EditingNow(file))), Emit(ImageToDisplay(file))];
        if file in disk.failsToConvert {
          raised := true;
          return;
        }
        steps := steps + [Save(file, edited, newFilename), Emit(StatusText(SavedAs(newFilename))), Emit(FileProcessed)];
      }
      if willDelete {
        if file in disk.failsToRemove {
          raised := true;
          return;
        }
        steps := steps + [Remove(file)];
      }
    }

    /** convertScreenshots, with the filesystem and the codec given by disk. */
    method ConvertScreenshots(disk: Disk) returns (run: Outcome)
      ensures run == ConvertJob(rawPath, editedPath, fileFormat, willDelete, disk)
    {
      var raw := rawPath;
      var edited := editedPath;
      var rawFiles: seq<string> := [];
      var existingFiles: seq<string> := [];
      if raw != "" && edited != "" {
        if edited !in disk.dirs {
          return Outcome([], true);
        }
        var editedListing := disk.dirs[edited];
        for i := 0 to |editedListing|
          invariant existingFiles == editedListing[..i]
        {
          existingFiles := existingFiles + [editedListing[i]];
        }
        if raw !in disk.dirs {
          return Outcome([], true);
        }
        var rawListing := disk.dirs[raw];
        for i := 0 to |rawListing|
          invariant rawFiles == rawListing[..i]
        {
          rawFiles := rawFiles + [rawListing[i]];
        }
        assert existingFiles == editedListing && rawFiles == rawListing;
        ghost var job := ConvertJob(rawPath, editedPath, fileFormat, willDelete, disk);
        ghost var plan := Plan(rawFiles, fileFormat);
        var trace := [Emit(FileCount(|rawFiles|))];
        assert plan[0..] == plan;
        for k := 0 to |rawFiles|
          invariant Then(trace, ConvertLoop(plan[k..], existingFiles, edited, willDelete, disk)) == job
        {
          ConvertLoopAt(plan, k, existingFiles, edited, willDelete, disk);
          var target := NameFile(rawFiles[k]);
          var steps, raised := ConvertFile(rawFiles[k], target, existingFiles, edited, disk);
          ThenThen(trace, steps, ConvertLoop(plan[k + 1..], existingFiles, edited, willDelete, disk));
          trace := trace + steps;
          if raised {
            return Outcome(trace, true);
          }
        }
        assert plan[|rawFiles|..] == [];
        return Outcome(trace, false);
      }
      return Outcome([], false);
    }
  }

  /** A Worker bound to a window's convertScreenshots. */
  class Worker {
    const window: MainWindow

    constructor (window: MainWindow)
      ensures this.window == window
    {
      this.window := window;
    }

    /** run: started(False); the call; error if it raised, result otherwise; finished(True). */
    method Run(disk: Disk) returns (emitted: seq<Step>)
      ensures emitted == Lifecycle(ConvertJob(window.rawPath, window.editedPath, window.fileFormat,
                                              window.willDelete, disk))
    {
      emitted := [Emit(Started(false))];
      var result := window.ConvertScreenshots(disk);
      emitted := emitted + result.trace;
      if result.raised {
        emitted := emitted + [Emit(Error)];
      } else {
        emitted := emitted + [Emit(Result)];
      }
      emitted := emitted + [Emit(Finished(true))];
    }
  }
}

/**
 * The command-line converter (script.py): every entry of one fixed source directory is opened
 * and saved as PNG under one fixed destination, and optionally removed.
 */
module Script {
  import opened PyStr
  import opened Effects

  /** RAW_PATH (script.py:5). */
  const RawPath: string := "C:/Games/Steam/steamapps/common/Skyrim Special Edition/screenshots"

  /** EDIT_PATH (script.py:6); note the two spaces before "Skyrim". */
  const EditPath: string := "C:/Users/vegap/Videos/The Elder Scrolls V  Skyrim Special Edition"

  /** deleteOriginals (script.py:9) as shipped. */
  const DeleteOriginals: bool := false

  /** `f"{file.strip('.bmp')}.png"`: a character-set strip of '.', 'b', 'm', 'p', then ".png". */
  function PngName(file: string): string
  {
    Strip(file, ".bmp") + ".png"
  }

  /** The save the script makes for one entry. */
  function PngSave(file: string): Step
  {
    Save(file, EditPath, PngName(file))
  }

  /** Whether the iteration for file raises: the image cannot be opened or saved, or removed. */
  predicate EntryFails(file: string, deleteOriginals: bool, disk: Disk)
  {
    file in disk.failsToConvert || (deleteOriginals && file in disk.failsToRemove)
  }

  /** One iteration: open and save (a failure raises before the save), then the optional remove. */
  function EntrySteps(file: string, deleteOriginals: bool, disk: Disk): (r: Outcome)
    ensures r.raised <==> EntryFails(file, deleteOriginals, disk)
  {
    if file in disk.failsToConvert then Outcome([], true)
    else RemoveIf([PngSave(file)], deleteOriginals, file, disk)
  }

  /** `for file in os.listdir():` in listing order; an exception ends the loop. */
  function EntriesLoop(files: seq<string>, deleteOriginals: bool, disk: Disk): Outcome
  {
    if files == [] then Outcome([], false)
    else
      var first := EntrySteps(files[0], deleteOriginals, disk);
      if first.raised then first
      else Then(first.trace, EntriesLoop(files[1..], deleteOriginals, disk))
  }

  /** `main()`: `os.chdir(RAW_PATH)` raises when the directory is missing; then the loop. */
  function MainRun(deleteOriginals: bool, disk: Disk): Outcome
  {
    if RawPath !in disk.dirs then Outcome([], true)
    else EntriesLoop(disk.dirs[RawPath], deleteOriginals, disk)
  }

  /** Reference: one PNG save per listed entry, whatever its extension, in listing order. */
  function ExpectedPngSaves(files: seq<string>): (r: seq<Step>)
    ensures |r| == |files|
    ensures forall k :: 0 <= k < |r| ==> r[k] == PngSave(files[k])
  {
    if files == [] then [] else [PngSave(files[0])] + ExpectedPngSaves(files[1..])
  }

  /** Reference: one removal per listed entry, in listing order. */
  function ExpectedRemovals(files: seq<string>): (r: seq<Step>)
    ensures |r| == |files|
    ensures forall k :: 0 <= k < |r| ==> r[k] == Remove(files[k])
  {
    if files == [] then [] else [Remove(files[0])] + ExpectedRemovals(files[1..])
  }

  /** The filters on one iteration. */
  lemma EntryFilters(file: string, deleteOriginals: bool, disk: Disk)
    ensures var r := EntrySteps(file, deleteOriginals, disk);
      && SavesOf(r.trace) == (if file in disk.failsToConvert then [] else [PngSave(file)])
      && RemovesOf(r.trace) == (if deleteOriginals && !r.raised then [Remove(file)] else [])
  {
    FiltersSingle(PngSave(file));
    FiltersSingle(Remove(file));
    FiltersAppend([PngSave(file)], [Remove(file)]);
  }

  /** The loop raises exactly when some listed entry fails. */
  lemma {:induction false} LoopRaises(files: seq<string>, deleteOriginals: bool, disk: Disk)
    ensures !EntriesLoop(files, deleteOriginals, disk).raised
        <==> forall k :: 0 <= k < |files| ==> !EntryFails(files[k], deleteOriginals, disk)
  {
    if files != [] {
      LoopRaises(files[1..], deleteOriginals, disk);
      if forall k :: 0 <= k < |files[1..]| ==> !EntryFails(files[1..][k], deleteOriginals, disk) {
        forall k | 0 <= k < |files| && k > 0 ensures !EntryFails(files[k], deleteOriginals, disk) {
          assert files[k] == files[1..][k - 1];
        }
      } else {
        var k :| 0 <= k < |files[1..]| && EntryFails(files[1..][k], deleteOriginals, disk);
        assert files[1..][k] == files[k + 1];
      }
    }
  }

  /**
   * The loop saves one PNG per entry in listing order, up to the first failure (all of them when
   * nothing raised); with the flag clear it removes nothing, with it set it removes the entries
   * it saved.
   */
  lemma {:induction false} LoopActions(files: seq<string>, deleteOriginals: bool, disk: Disk)
    ensures var r := EntriesLoop(files, deleteOriginals, disk);
      && SavesOf(r.trace) <= ExpectedPngSaves(files)
      && (!r.raised ==> SavesOf(r.trace) == ExpectedPngSaves(files))
      && (!deleteOriginals ==> RemovesOf(r.trace) == [])
      && RemovesOf(r.trace) <= ExpectedRemovals(files)
      && (!r.raised && deleteOriginals ==> RemovesOf(r.trace) == ExpectedRemovals(files))
  {
    if files != [] {
      var f := files[0];
      var first := EntrySteps(f, deleteOriginals, disk);
      var rest := EntriesLoop(files[1..], deleteOriginals, disk);
      EntryFilters(f, deleteOriginals, disk);
      LoopActions(files[1..], deleteOriginals, disk);
      if !first.raised {
        FiltersAppend(first.trace, rest.trace);
        PrefixAfter(SavesOf(first.trace), SavesOf(rest.trace), ExpectedPngSaves(files[1..]));
        PrefixAfter(RemovesOf(first.trace), RemovesOf(rest.trace), ExpectedRemovals(files[1..]));
      } else {
        PrefixAfter(SavesOf(first.trace), [], ExpectedPngSaves(files[1..]));
      }
    }
  }

  /**
   * No exception handling: when every entry before f succeeds and f fails, the loop's trace is
   * the earlier entries' steps (each saved, and removed when the flag is set) followed by f's,
   * and nothing is done for the entries listed after f.
   */
  lemma {:induction false} LoopAbortsAt(pre: seq<string>, f: string, post: seq<string>, deleteOriginals: bool,
                                        disk: Disk)
    requires forall k :: 0 <= k < |pre| ==> !EntryFails(pre[k], deleteOriginals, disk)
    requires EntryFails(f, deleteOriginals, disk)
    ensures EntriesLoop(pre + [f] + post, deleteOriginals, disk)
         == Then(EntriesLoop(pre, deleteOriginals, disk).trace, EntrySteps(f, deleteOriginals, disk))
    ensures SavesOf(EntriesLoop(pre, deleteOriginals, disk).trace) == ExpectedPngSaves(pre)
    ensures RemovesOf(EntriesLoop(pre, deleteOriginals, disk).trace)
         == (if deleteOriginals then ExpectedRemovals(pre) else [])
  {
    LoopRaises(pre, deleteOriginals, disk);
    LoopActions(pre, deleteOriginals, disk);
    var files := pre + [f] + post;
    if pre == [] {
      assert files[0] == f;
    } else {
      assert files[0] == pre[0];
      assert files[1..] == pre[1..] + [f] + post;
      forall k | 0 <= k < |pre[1..]| ensures !EntryFails(pre[1..][k], deleteOriginals, disk) {
        assert pre[1..][k] == pre[k + 1];
      }
      LoopAbortsAt(pre[1..], f, post, deleteOriginals, disk);
      ThenThen(EntrySteps(pre[0], deleteOriginals, disk).trace, EntriesLoop(pre[1..], deleteOriginals, disk).trace,
               EntrySteps(f, deleteOriginals, disk));
    }
  }

  /** main() when the entry f of the source listing is the first to fail. */
  lemma MainAbortsAt(pre: seq<string>, f: string, post: seq<string>, deleteOriginals: bool, disk: Disk)
    requires RawPath in disk.dirs && disk.dirs[RawPath] == pre + [f] + post
    requires forall k :: 0 <= k < |pre| ==> !EntryFails(pre[k], deleteOriginals, disk)
    requires EntryFails(f, deleteOriginals, disk)
    ensures var r := MainRun(deleteOriginals, disk);
      && r.raised
      && SavesOf(r.trace) == ExpectedPngSaves(pre) + (if f in disk.failsToConvert then [] else [PngSave(f)])
      && RemovesOf(r.trace) == (if deleteOriginals then ExpectedRemovals(pre) else [])
  {
    LoopAbortsAt(pre, f, post, deleteOriginals, disk);
    EntryFilters(f, deleteOriginals, disk);
    FiltersAppend(EntriesLoop(pre, deleteOriginals, disk).trace, EntrySteps(f, deleteOriginals, disk).trace);
  }

  /** In the loop's trace every removal comes right after the save of the same file. */
  lemma {:induction false} RemoveFollowsSave(files: seq<string>, deleteOriginals: bool, disk: Disk)
    ensures var t := EntriesLoop(files, deleteOriginals, disk).trace;
      forall k :: 0 <= k < |t| && t[k].Remove? ==> k > 0 && t[k - 1] == PngSave(t[k].file)
  {
    if files != [] {
      var first := EntrySteps(files[0], deleteOriginals, disk);
      RemoveFollowsSave(files[1..], deleteOriginals, disk);
      LoopStartsWithSave(files[1..], deleteOriginals, disk);
      if !first.raised {
        var rest := EntriesLoop(files[1..], deleteOriginals, disk).trace;
        var t := first.trace + rest;
        forall k | 0 <= k < |t| && t[k].Remove? ensures k > 0 && t[k - 1] == PngSave(t[k].file) {
          if k >= |first.trace| {
            var j := k - |first.trace|;
            assert t[k] == rest[j];
            if j > 0 {
              assert t[k - 1] == rest[j - 1];
            } else {
              assert false;
            }
          }
        }
      }
    }
  }

  /** The loop's first step, if any, is a save: a listing never starts with a removal. */
  lemma LoopStartsWithSave(files: seq<string>, deleteOriginals: bool, disk: Disk)
    ensures var t := EntriesLoop(files, deleteOriginals, disk).trace;
      t != [] ==> t[0].Save?
  {
  }

  /** The run of main: nothing when the source directory is missing, else the loop over it. */
  lemma MainActions(deleteOriginals: bool, disk: Disk)
    ensures var r := MainRun(deleteOriginals, disk);
      && (RawPath !in disk.dirs ==> r == Outcome([], true))
      && (RawPath in disk.dirs ==>
            var files := disk.dirs[RawPath];
            && (!r.raised <==> forall k :: 0 <= k < |files| ==> !EntryFails(files[k], deleteOriginals, disk))
            && SavesOf(r.trace) <= ExpectedPngSaves(files)
            && (!r.raised ==> SavesOf(r.trace) == ExpectedPngSaves(files))
            && RemovesOf(r.trace) <= ExpectedRemovals(files)
            && (!r.raised && deleteOriginals ==> RemovesOf(r.trace) == ExpectedRemovals(files)))
      && (!deleteOriginals ==> RemovesOf(r.trace) == [])
  {
    if RawPath in disk.dirs {
      LoopRaises(disk.dirs[RawPath], deleteOriginals, disk);
      LoopActions(disk.dirs[RawPath], deleteOriginals, disk);
    }
  }

  /** As shipped, with deleteOriginals False, the script never removes an original. */
  lemma DefaultKeepsOriginals(disk: Disk)
    ensures RemovesOf(MainRun(DeleteOriginals, disk).trace) == []
  {
    MainActions(DeleteOriginals, disk);
  }

  /** A stem that neither starts nor ends with '.', 'b', 'm' or 'p' keeps its name: x.bmp gives x.png. */
  lemma PngNameOfBmp(stem: string)
    requires stem != [] ==> stem[0] !in ".bmp" && stem[|stem| - 1] !in ".bmp"
    ensures PngName(stem + ".bmp") == stem + ".png"
  {
    StripOwnSuffix(stem, ".bmp");
  }

  /** The strip is not a suffix removal: "bob.bmp" becomes "o.png", "a.png" becomes "a.png.png". */
  lemma PngNameStripsStem()
    ensures PngName("bob.bmp") == "o.png"
    ensures PngName("a.png") == "a.png.png"
  {
    StripWindow("bob.bmp", ".bmp", 1, 2);
    assert "bob.bmp"[1..2] + ".png" == "o.png";
    StripWindow("a.png", ".bmp", 0, 5);
    assert "a.png"[0..5] == "a.png";
  }

  /** Two different entries can get the same PNG name: "a.bmp" and "ab.bmp" both become "a.png". */
  lemma PngNamesCollide()
    ensures PngName("a.bmp") == "a.png" && PngName("ab.bmp") == "a.png"
  {
    PngNameOfBmp("a");
    assert "a" + ".bmp" == "a.bmp" && "a" + ".png" == "a.png";
    StripWindow("ab.bmp", ".bmp", 0, 1);
    assert "ab.bmp"[0..1] + ".png" == "a.png";
  }

  /** "a.bmp" and "ab.bmp" are both saved as EDIT_PATH/a.png: the second save overwrites the first. */
  lemma SameTargetOverwrites(disk: Disk)
    requires disk.dirs == map[RawPath := ["a.bmp", "ab.bmp"]]
    requires disk.failsToConvert == {}
    ensures MainRun(false, disk) == Outcome([Save("a.bmp", EditPath, "a.png"), Save("ab.bmp", EditPath, "a.png")], false)
  {
    PngNamesCollide();
    var files := ["a.bmp", "ab.bmp"];
    assert files[1..] == ["ab.bmp"];
    assert files[1..][1..] == [];
    assert EntrySteps("a.bmp", false, disk) == Outcome([PngSave("a.bmp")], false);
    assert EntrySteps("ab.bmp", false, disk) == Outcome([PngSave("ab.bmp")], false);
    assert EntriesLoop(files[1..], false, disk) == Outcome([PngSave("ab.bmp")], false);
  }

  /** main(), with the file system and the codec given by disk and the flag as a parameter. */
  method RunMain(deleteOriginals: bool, disk: Disk) returns (run: Outcome)
    ensures run == MainRun(deleteOriginals, disk)
  {
    if RawPath !in disk.dirs {
      return Outcome([], true);
    }
    var files := disk.dirs[RawPath];
    var trace: seq<Step> := [];
    assert files[0..] == files;
    for k := 0 to |files|
      invariant Then(trace, EntriesLoop(files[k..], deleteOriginals, disk)) == MainRun(deleteOriginals, disk)
    {
      var file := files[k];
      assert files[k..][0] == file && files[k..][1..] == files[k + 1..];
      ghost var before := trace;
      ghost var first := EntrySteps(file, deleteOriginals, disk);
      if file in disk.failsToConvert {
        return Outcome(trace, true);
      }
      var rawFilename := Strip(file, ".bmp");
      var newFilename := rawFilename + ".png";
      trace := trace + [Save(file, EditPath, newFilename)];
      if deleteOriginals {
        if file in disk.failsToRemove {
          return Outcome(trace, true);
        }
        trace := trace + [Remove(file)];
      }
      assert trace == before + first.trace;
      ThenThen(before, first.trace, EntriesLoop(files[k + 1..], deleteOriginals, disk));
    }
    assert files[|files|..] == [];
    return Outcome(trace, false);
  }
}

/**
 * What the converter does to the outside world, as values: the Qt signals it emits, the files
 * it saves and removes, and the directory listings and codec/remove failures it meets.
 */
module Effects {

  /** The two texts the loop puts on the status line, by template and argument. */
  datatype StatusLine = EditingNow(file: string) | SavedAs(name: string)

  /** The rendered text: `f"Editing {file} now..."` and `f"Saved as {newFilename}..."`. */
  function Render(line: StatusLine): string
  {
    match line
    case EditingNow(file) => "Editing " + file + " now..."
    case SavedAs(name) => "Saved as " + name + "..."
  }

  /** The two templates start with different letters. */
  lemma RenderFirst(line: StatusLine)
    ensures |Render(line)| > 0 && Render(line)[0] == if line.EditingNow? then 'E' else 'S'
  {
  }

  /** Rendering loses nothing: distinct status lines have distinct texts. */
  lemma RenderInjective(a: StatusLine, b: StatusLine)
    requires Render(a) == Render(b)
    ensures a == b
  {
    var r := Render(a);
    if a.EditingNow? && b.EditingNow? {
      assert a.file == r[8..|r| - 7] == b.file;
    } else if a.SavedAs? && b.SavedAs? {
      assert a.name == r[9..|r| - 3] == b.name;
    } else {
      RenderFirst(a);
      RenderFirst(b);
    }
  }

  /** The signals of `WorkerSignals` (app.py:9-17); `error` and `result` carry no payload here. */
  datatype Signal =
    | Started(enable: bool)
    | FileCount(count: nat)
    | StatusText(line: StatusLine)
    | ImageToDisplay(file: string)
    | FileProcessed
    | Error
    | Result
    | Finished(enable: bool)

  /**
   * One observable step: a signal emission, an image saved as `f"{dir}/{name}"`, a file
   * removed.
   */
  datatype Step =
    | Emit(signal: Signal)
    | Save(source: string, dir: string, name: string)
    | Remove(file: string)

  /** The steps a call performed, in order, and whether it ended by raising an exception. */
  datatype Outcome = Outcome(trace: seq<Step>, raised: bool)

  /**
   * The filesystem as the converter sees it: the listing (in enumeration order) of every
   * directory that can be entered, the source files on which `Image.open`/`save` raise, and the
   * files on which `os.remove` raises. A path missing from dirs makes `os.chdir` raise.
   */
  datatype Disk = Disk(dirs: map<string, seq<string>>, failsToConvert: set<string>, failsToRemove: set<string>)

  /** Steps already done, followed by a call that continues from there. */
  function Then(done: seq<Step>, rest: Outcome): Outcome
  {
    Outcome(done + rest.trace, rest.raised)
  }

  /** Doing done and then more before a call is doing done + more before it. */
  lemma ThenThen(done: seq<Step>, more: seq<Step>, rest: Outcome)
    ensures Then(done, Then(more, rest)) == Then(done + more, rest)
  {
    assert done + (more + rest.trace) == (done + more) + rest.trace;
  }

  /** A prefix stays a prefix under a common head. */
  lemma PrefixAfter(x: seq<Step>, a: seq<Step>, b: seq<Step>)
    requires a <= b
    ensures x + a <= x + b
  {
    assert (x + b)[..|x + a|] == x + b[..|a|];
  }

  /** `if delete: os.remove(file)` after the steps in done; a failing remove raises. */
  function RemoveIf(done: seq<Step>, delete: bool, file: string, disk: Disk): (r: Outcome)
    ensures r.raised <==> delete && file in disk.failsToRemove
    ensures r.trace == if delete && !r.raised then done + [Remove(file)] else done
  {
    if !delete then Outcome(done, false)
    else if file in disk.failsToRemove then Outcome(done, true)
    else Outcome(done + [Remove(file)], false)
  }

  /** The Save steps of a trace, in order. */
  function SavesOf(t: seq<Step>): (r: seq<Step>)
    ensures |r| <= |t|
    ensures forall k :: 0 <= k < |r| ==> r[k].Save?
  {
    if t == [] then [] else (if t[0].Save? then [t[0]] else []) + SavesOf(t[1..])
  }

  /** The Remove steps of a trace, in order. */
  function RemovesOf(t: seq<Step>): (r: seq<Step>)
    ensures |r| <= |t|
    ensures forall k :: 0 <= k < |r| ==> r[k].Remove?
  {
    if t == [] then [] else (if t[0].Remove? then [t[0]] else []) + RemovesOf(t[1..])
  }

  /** How many `file_processed` signals a trace holds. */
  function CountProcessed(t: seq<Step>): (n: nat)
    ensures n <= |t|
  {
    if t == [] then 0 else (if t[0] == Emit(FileProcessed) then 1 else 0) + CountProcessed(t[1..])
  }

  /** The three filters distribute over concatenation of traces. */
  lemma {:induction false} FiltersAppend(a: seq<Step>, b: seq<Step>)
    ensures SavesOf(a + b) == SavesOf(a) + SavesOf(b)
    ensures RemovesOf(a + b) == RemovesOf(a) + RemovesOf(b)
    ensures CountProcessed(a + b) == CountProcessed(a) + CountProcessed(b)
  {
    if a == [] {
      assert a + b == b;
    } else {
      assert (a + b)[1..] == a[1..] + b;
      FiltersAppend(a[1..], b);
    }
  }

  /** The three filters on a one-step trace. */
  lemma FiltersSingle(s: Step)
    ensures SavesOf([s]) == if s.Save? then [s] else []
    ensures RemovesOf([s]) == if s.Remove? then [s] else []
    ensures CountProcessed([s]) == if s == Emit(FileProcessed) then 1 else 0
  {
    assert [s][1..] == [];
  }
}

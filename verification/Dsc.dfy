/** `copy_dsc` and `remove_dsc` of src/fsys.cpp: a manifest (Debian Policy Manual, section
    5.6.21, field `Files`) names the files that travel with it. */
module Dsc {
  import opened Strings
  import opened Paths
  import opened FileSystem

  predicate IsFilesHeader(line: string) {
    (if |line| < 6 then line else line[..6]) == "Files:"
  }

  predicate IsContinuation(line: string) {
    line != "" && line[0] == ' '
  }

  /** `split(buffer).back()` */
  function LastField(line: string): string {
    var pieces := Split(line, " ");
    pieces[|pieces| - 1]
  }

  /** The names the flag-driven scanner of `copy_dsc` and `remove_dsc` extracts. */
  function Scan(lines: seq<string>, files: bool): seq<string> {
    if lines == [] then []
    else if IsFilesHeader(lines[0]) then Scan(lines[1..], true)
    else if !IsContinuation(lines[0]) || !files then Scan(lines[1..], false)
    else [LastField(lines[0])] + Scan(lines[1..], true)
  }

  function Names(manifest: File): seq<string> {
    Scan(Lines(manifest.content), false)
  }

  function FaultAt(faults: seq<Faults>, i: nat): Faults {
    if i < |faults| then faults[i] else NO_FAULTS
  }

  /** The copies for the listed names, the `i`-th call of `copy_file` and on. */
  function NameJobs(prefix: string, target: string, names: seq<string>, faults: seq<Faults>, i: nat): (jobs: seq<Job>)
    ensures |jobs| == |names|
    ensures forall k :: 0 <= k < |names| ==>
              jobs[k] == Job(Under(prefix, names[k]), Under(target, names[k]), FaultAt(faults, i + k))
  {
    seq(|names|, k requires 0 <= k < |names| =>
      Job(Under(prefix, names[k]), Under(target, names[k]), FaultAt(faults, i + k)))
  }

  /** The listed files first, the manifest last. */
  function DscJobs(source: string, target: string, names: seq<string>, faults: seq<Faults>): (jobs: seq<Job>)
    ensures |jobs| == |names| + 1
  {
    NameJobs(Dirname(source), target, names, faults, 0) +
    [Job(source, Under(target, Basename(source)), FaultAt(faults, |names|))]
  }

  function CopyDscOutcome(fs: Files, source: string, target: string, faults: seq<Faults>): Outcome {
    if source !in fs then Outcome(false, [])
    else RunJobs(fs, DscJobs(source, target, Names(fs[source]), faults))
  }

  /** Removal of paths one after the other; a path that is missing or denied stops it. */
  function RemoveAll(fs: Files, paths: seq<string>, denied: set<string>): Outcome
    decreases |paths|
  {
    if paths == [] then Outcome(true, [])
    else if paths[0] !in fs || paths[0] in denied then Outcome(false, [])
    else
      var rest := RemoveAll(fs - {paths[0]}, paths[1..], denied);
      Outcome(rest.ok, [fs - {paths[0]}] + rest.states)
  }

  function UnderAll(prefix: string, names: seq<string>): (paths: seq<string>)
    ensures |paths| == |names|
    ensures forall k :: 0 <= k < |names| ==> paths[k] == Under(prefix, names[k])
  {
    if names == [] then [] else [Under(prefix, names[0])] + UnderAll(prefix, names[1..])
  }

  function RemoveDscOutcome(fs: Files, source: string, denied: set<string>): Outcome {
    if source !in fs then Outcome(false, [])
    else RemoveAll(fs, UnderAll(Dirname(source), Names(fs[source])) + [source], denied)
  }
}

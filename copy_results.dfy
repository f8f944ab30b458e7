/**
 * Where the pipeline stages put their results: `copy_results` of the mask, straighten
 * and tipmask commands.  Each file name is corrected, its attributes give the
 * `<year>_<location>[/<dir>[/<sub>]]` hierarchy below the destination, and the file is
 * copied or moved into that stage's leaf directory.  The file system is reduced to the
 * list of operations the run would perform.
 */
module CopyResults {
  import opened Wrappers
  import opened Text
  import Utils
  import Acquire

  // ---------------------------------------------------------------- names and directories

  /** `file.replace("_px", "px").replace("_ppm", "ppm")`: the unit suffix joins the value. */
  function CorrectedName(file: string): (r: string)
    ensures !Contains(file, "_px") && !Contains(file, "_ppm") ==> r == file
  {
    Replace(Replace(file, "_px", "px"), "_ppm", "ppm")
  }

  /** `<last '-' segment of the UID>_<Location, or missing_location>` */
  function YearLocation(attrs: map<string, string>): string
    requires "UID" in attrs
  {
    var year := LastPart(attrs["UID"], '-');
    var location := if "Location" in attrs then attrs["Location"] else "missing_location";
    Join([year, location], "_")
  }

  /**
   * The target hierarchy: `dest/<year_location>`, then `/<dir value>` when the directory
   * key is set, then `/<sub value>` when a sub key is given and set as well.
   */
  function Hierarchy(dest: string, attrs: map<string, string>, destdir: string, destsub: string): string
    requires "UID" in attrs
  {
    var yearLocation := YearLocation(attrs);
    match Acquire.NonEmptyValue(attrs, destdir)
    case None => PathJoin(dest, yearLocation)
    case Some(dirname) =>
      if destsub != "" && Acquire.NonEmptyValue(attrs, destsub).Some? then
        PathJoinAll(dest, [yearLocation, dirname, Acquire.NonEmptyValue(attrs, destsub).value])
      else PathJoinAll(dest, [yearLocation, dirname])
  }

  /** Below `dest/<year_location>` the hierarchy follows the same directory rule as acquisition. */
  lemma HierarchyIsDestDir(dest: string, attrs: map<string, string>, destdir: string, destsub: string)
    requires "UID" in attrs
    ensures Hierarchy(dest, attrs, destdir, destsub)
      == Acquire.DestDir(PathJoin(dest, YearLocation(attrs)), attrs, destdir, destsub)
  {
    var yl := YearLocation(attrs);
    var base := PathJoin(dest, yl);
    match Acquire.NonEmptyValue(attrs, destdir)
    case None =>
    case Some(d) =>
      if destsub != "" && Acquire.NonEmptyValue(attrs, destsub).Some? {
        var b := Acquire.NonEmptyValue(attrs, destsub).value;
        assert [yl, d, b][1..] == [d, b];
        assert PathJoinAll(dest, [yl, d, b]) == PathJoinAll(base, [d, b]);
      } else {
        assert [yl, d][1..] == [d];
        assert [d][1..] == [];
        assert PathJoinAll(dest, [yl, d]) == PathJoinAll(base, [d]);
      }
  }

  /**
   * The three shapes of the hierarchy; in particular the sub key is consulted only when
   * the directory key is set.
   */
  lemma HierarchyCases(dest: string, attrs: map<string, string>, destdir: string, destsub: string)
    requires "UID" in attrs
    ensures var base := PathJoin(dest, YearLocation(attrs));
      && (Acquire.NonEmptyValue(attrs, destdir).None? ==> Hierarchy(dest, attrs, destdir, destsub) == base)
      && (Acquire.NonEmptyValue(attrs, destdir).Some? && (destsub == "" || Acquire.NonEmptyValue(attrs, destsub).None?) ==>
            Hierarchy(dest, attrs, destdir, destsub) == PathJoin(base, attrs[destdir]))
      && (Acquire.NonEmptyValue(attrs, destdir).Some? && destsub != "" && Acquire.NonEmptyValue(attrs, destsub).Some? ==>
            Hierarchy(dest, attrs, destdir, destsub) == PathJoin(PathJoin(base, attrs[destdir]), attrs[destsub]))
  {
    HierarchyIsDestDir(dest, attrs, destdir, destsub);
    Acquire.DestDirCases(PathJoin(dest, YearLocation(attrs)), attrs, destdir, destsub);
  }

  // ---------------------------------------------------------------- one file per stage

  /** What happens to one file. */
  datatype FileOp =
    | Copy(src: string, dst: string)    // shutil.copyfile
    | Rename(src: string, dst: string)  // os.rename
    | RemoveTree(dir: string)           // shutil.rmtree

  /**
   * The parsed attributes of a corrected name: the `get_attributes_from_filename` error,
   * or a KeyError when there is no `UID` (read unconditionally by every stage).
   */
  function UidAttributes(name: string): (r: Result<map<string, string>>)
    ensures r.Ok? ==> "UID" in r.value
  {
    match Utils.GetAttributes(name)
    case Err(e) => Err(e)
    case Ok(attrs) => if "UID" !in attrs then Err("KeyError") else Ok(attrs)
  }

  /** mask.py: every file is copied, under its corrected name, into `<hierarchy>/binary-masks`. */
  function MaskStep(source: string, dest: string, file: string, destdir: string, destsub: string): (r: Result<FileOp>)
    ensures var attrs := Utils.GetAttributes(CorrectedName(file));
      r.Err? <==> attrs.Err? || "UID" !in attrs.value
    ensures r.Ok? ==> r.value.Copy? && r.value.src == PathJoin(source, file)
  {
    var name := CorrectedName(file);
    match UidAttributes(name)
    case Err(e) => Err(e)
    case Ok(attrs) =>
      var target := PathJoin(Hierarchy(dest, attrs, destdir, destsub), Utils.BinaryMasksDir);
      Ok(Copy(PathJoin(source, file), PathJoin(target, name)))
  }

  /** straighten.py: which names the stage handles at all. */
  predicate StraightenHandles(file: string)
  {
    Contains(file, "Curvature") && EndsWith(file, Utils.FileFormat)
  }

  /**
   * straighten.py: a handled file is moved; with `flatFiles` straight into `dest` under its
   * original name, otherwise under its corrected name into `straight-masks` below the
   * hierarchy, or below the part of `source` before `binary-masks` when `dest` is empty.
   */
  function StraightenStep(source: string, dest: string, file: string, destdir: string, destsub: string, flatFiles: bool)
    : (r: Result<Option<FileOp>>)
    ensures r == Ok(None) <==> !StraightenHandles(file)
    ensures StraightenHandles(file) && flatFiles ==> r == Ok(Some(Rename(PathJoin(source, file), PathJoin(dest, file))))
    ensures var attrs := Utils.GetAttributes(CorrectedName(file));
      r.Err? <==> StraightenHandles(file) && !flatFiles && (attrs.Err? || "UID" !in attrs.value)
    ensures r.Ok? && r.value.Some? ==> r.value.value.Rename? && r.value.value.src == PathJoin(source, file)
  {
    if !StraightenHandles(file) then Ok(None)
    else if flatFiles then Ok(Some(Rename(PathJoin(source, file), PathJoin(dest, file))))
    else
      var name := CorrectedName(file);
      match UidAttributes(name)
      case Err(e) => Err(e)
      case Ok(attrs) =>
        var base := if dest == "" then BeforeFirst(source, Utils.BinaryMasksDir) else Hierarchy(dest, attrs, destdir, destsub);
        Ok(Some(Rename(PathJoin(source, file), PathJoin(PathJoin(base, Utils.StraightenedMasksDir), name))))
  }

  /** tipmask.py: every image is moved, under its corrected name, into `<hierarchy>/detipped-masks`. */
  function TipmaskStep(source: string, dest: string, file: string, destdir: string, destsub: string)
    : (r: Result<Option<FileOp>>)
    ensures r == Ok(None) <==> !EndsWith(file, Utils.FileFormat)
    ensures var attrs := Utils.GetAttributes(CorrectedName(file));
      r.Err? <==> EndsWith(file, Utils.FileFormat) && (attrs.Err? || "UID" !in attrs.value)
    ensures r.Ok? && r.value.Some? ==> r.value.value.Rename? && r.value.value.src == PathJoin(source, file)
  {
    if !EndsWith(file, Utils.FileFormat) then Ok(None)
    else
      var name := CorrectedName(file);
      match UidAttributes(name)
      case Err(e) => Err(e)
      case Ok(attrs) =>
        var target := PathJoin(Hierarchy(dest, attrs, destdir, destsub), Utils.DetippedMasksDir);
        Ok(Some(Rename(PathJoin(source, file), PathJoin(target, name))))
  }

  /**
   * With an empty destination the straightened mask goes next to the source's
   * `binary-masks` directory: its path starts with the source text before `binary-masks`,
   * and continues with `straight-masks`.
   */
  lemma StraightenSibling(source: string, file: string, destdir: string, destsub: string)
    requires StraightenStep(source, "", file, destdir, destsub, false).Ok?
    requires StraightenStep(source, "", file, destdir, destsub, false).value.Some?
    requires !StartsWith(CorrectedName(file), "/")
    ensures var op := StraightenStep(source, "", file, destdir, destsub, false).value.value;
      var base := BeforeFirst(source, Utils.BinaryMasksDir);
      op.Rename? && StartsWith(op.dst, PathJoin(base, Utils.StraightenedMasksDir))
      && StartsWith(PathJoin(base, Utils.StraightenedMasksDir), base)
      && !Contains(base, Utils.BinaryMasksDir)
  {
    var base := BeforeFirst(source, Utils.BinaryMasksDir);
    assert !StartsWith(Utils.StraightenedMasksDir, "/") by {
      assert Utils.StraightenedMasksDir[0] == 's';
    }
  }

  // ---------------------------------------------------------------- the loop over the listing

  /** The three stages. */
  datatype Stage = MaskStage | StraightenStage(flatFiles: bool) | TipmaskStage

  /** What the stage does with one listed file: an error, nothing, or one operation. */
  function StageStep(stage: Stage, source: string, dest: string, file: string, destdir: string, destsub: string)
    : (r: Result<Option<FileOp>>)
    ensures r.Ok? && r.value.Some? ==> !r.value.value.RemoveTree?
  {
    match stage
    case MaskStage =>
      (match MaskStep(source, dest, file, destdir, destsub)
       case Err(e) => Err(e)
       case Ok(op) => Ok(Some(op)))
    case StraightenStage(flat) => StraightenStep(source, dest, file, destdir, destsub, flat)
    case TipmaskStage => TipmaskStep(source, dest, file, destdir, destsub)
  }

  /** The step outcomes of a listing, in listing order. */
  function Steps(stage: Stage, source: string, dest: string, listing: seq<string>, destdir: string, destsub: string)
    : (r: seq<Result<Option<FileOp>>>)
    ensures |r| == |listing|
    ensures forall i :: 0 <= i < |listing| ==> r[i] == StageStep(stage, source, dest, listing[i], destdir, destsub)
  {
    seq(|listing|, i requires 0 <= i < |listing| => StageStep(stage, source, dest, listing[i], destdir, destsub))
  }

  /** The operations performed, and the exception that ended the loop, if any. */
  datatype Run = Run(ops: seq<FileOp>, error: Option<string>)

  /** Runs the steps in order; the first error ends the run, keeping the operations already done. */
  function RunOf(steps: seq<Result<Option<FileOp>>>): Run
  {
    if |steps| == 0 then Run([], None)
    else
      var r := RunOf(steps[..|steps| - 1]);
      if r.error.Some? then r
      else
        match steps[|steps| - 1]
        case Err(e) => Run(r.ops, Some(e))
        case Ok(None) => r
        case Ok(Some(op)) => Run(r.ops + [op], None)
  }

  /** The operations actually performed when every step succeeds: those of the handled files. */
  function Performed(steps: seq<Result<Option<FileOp>>>): seq<FileOp>
  {
    if |steps| == 0 then []
    else
      var last := steps[|steps| - 1];
      Performed(steps[..|steps| - 1]) + (if last.Ok? && last.value.Some? then [last.value.value] else [])
  }

  /**
   * A run ends without error exactly when every step succeeds, and then it performed the
   * operation of every handled file, in listing order.
   */
  lemma {:induction false} RunSucceeds(steps: seq<Result<Option<FileOp>>>)
    ensures RunOf(steps).error.None? <==> forall i :: 0 <= i < |steps| ==> steps[i].Ok?
    ensures RunOf(steps).error.None? ==> RunOf(steps).ops == Performed(steps)
  {
    if |steps| > 0 {
      var init := steps[..|steps| - 1];
      RunSucceeds(init);
      assert forall i :: 0 <= i < |init| ==> init[i] == steps[i];
    }
  }

  /**
   * A failed run reports the error of its first failing step, after performing exactly the
   * operations of the files before it.
   */
  lemma {:induction false} RunFailsAtFirstError(steps: seq<Result<Option<FileOp>>>)
    requires RunOf(steps).error.Some?
    ensures exists i :: (0 <= i < |steps| && steps[i].Err?
      && (forall j :: 0 <= j < i ==> steps[j].Ok?)
      && RunOf(steps) == Run(Performed(steps[..i]), Some(steps[i].error)))
  {
    var init := steps[..|steps| - 1];
    assert forall j :: 0 <= j < |init| ==> init[j] == steps[j];
    if RunOf(init).error.Some? {
      RunFailsAtFirstError(init);
      var i :| 0 <= i < |init| && init[i].Err? && (forall j :: 0 <= j < i ==> init[j].Ok?)
        && RunOf(init) == Run(Performed(init[..i]), Some(init[i].error));
      assert init[..i] == steps[..i];
    } else {
      var i := |steps| - 1;
      RunSucceeds(init);
      assert steps[..i] == init;
      assert steps[i].Err? && (forall j :: 0 <= j < i ==> steps[j].Ok?)
        && RunOf(steps) == Run(Performed(steps[..i]), Some(steps[i].error));
    }
  }

  /** The whole command: the loop, then for the tipmask stage the removal of the source directory. */
  function CopyResultsRun(stage: Stage, source: string, dest: string, listing: seq<string>, destdir: string, destsub: string): Run
  {
    var r := RunOf(Steps(stage, source, dest, listing, destdir, destsub));
    if stage.TipmaskStage? && r.error.None? then Run(r.ops + [RemoveTree(source)], None) else r
  }

  /**
   * The source directory is removed only by the tipmask stage, only after all its moves,
   * and only when none of them failed.
   */
  lemma SourceRemovedLast(stage: Stage, source: string, dest: string, listing: seq<string>, destdir: string, destsub: string)
    ensures var r := CopyResultsRun(stage, source, dest, listing, destdir, destsub);
      var steps := Steps(stage, source, dest, listing, destdir, destsub);
      (|r.ops| > 0 && r.ops[|r.ops| - 1] == RemoveTree(source))
        <==> stage.TipmaskStage? && forall i :: 0 <= i < |steps| ==> steps[i].Ok?
  {
    var steps := Steps(stage, source, dest, listing, destdir, destsub);
    RunSucceeds(steps);
    OnlyStepOps(steps);
    var r := RunOf(steps);
    if |r.ops| > 0 {
      assert r.ops[|r.ops| - 1] in r.ops;
    }
  }

  /** Every operation of a run is the operation of one of its steps; no step produces a removal. */
  lemma {:induction false} OnlyStepOps(steps: seq<Result<Option<FileOp>>>)
    requires forall i :: 0 <= i < |steps| ==> steps[i].Ok? && steps[i].value.Some? ==> !steps[i].value.value.RemoveTree?
    ensures forall op :: op in RunOf(steps).ops ==> !op.RemoveTree?
  {
    if |steps| > 0 {
      var init := steps[..|steps| - 1];
      assert forall j :: 0 <= j < |init| ==> init[j] == steps[j];
      OnlyStepOps(init);
    }
  }

  /** One more step extends a run that has not failed. */
  lemma RunExtend(steps: seq<Result<Option<FileOp>>>, i: nat)
    requires i < |steps|
    ensures RunOf(steps[..i + 1]) == (
      var r := RunOf(steps[..i]);
      if r.error.Some? then r
      else match steps[i]
        case Err(e) => Run(r.ops, Some(e))
        case Ok(None) => r
        case Ok(Some(op)) => Run(r.ops + [op], None))
  {
    assert steps[..i + 1][..i] == steps[..i];
  }

  /** Once a run has failed, later steps change nothing. */
  lemma {:induction false} RunErrorSticks(steps: seq<Result<Option<FileOp>>>, i: nat)
    requires i <= |steps| && RunOf(steps[..i]).error.Some?
    ensures RunOf(steps) == RunOf(steps[..i])
    decreases |steps| - i
  {
    if i < |steps| {
      RunExtend(steps, i);
      RunErrorSticks(steps, i + 1);
    } else {
      assert steps[..i] == steps;
    }
  }

  /**
   * `copy_results` of one stage: walks the listing of `source`, performs each file's
   * operation and stops at the first exception; the tipmask stage then removes `source`.
   */
  method CopyResults(stage: Stage, source: string, dest: string, listing: seq<string>, destdir: string, destsub: string)
    returns (r: Run)
    ensures r == CopyResultsRun(stage, source, dest, listing, destdir, destsub)
  {
    ghost var steps := Steps(stage, source, dest, listing, destdir, destsub);
    var ops: seq<FileOp> := [];
    var i := 0;
    while i < |listing|
      invariant 0 <= i <= |listing|
      invariant RunOf(steps[..i]) == Run(ops, None)
    {
      RunExtend(steps, i);
      var step := StageStep(stage, source, dest, listing[i], destdir, destsub);
      if step.Err? {
        RunErrorSticks(steps, i + 1);
        return Run(ops, Some(step.error));
      }
      if step.value.Some? {
        ops := ops + [step.value.value];
      }
      i := i + 1;
    }
    assert steps[..i] == steps;
    if stage.TipmaskStage? {
      ops := ops + [RemoveTree(source)];
    }
    r := Run(ops, None);
  }
}

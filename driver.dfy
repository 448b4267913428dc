/**
 * The arithmetic and control flow of `main`: the default first count, the next ids of the two
 * containers, the split of the payloads between them, and the two guarded injections.
 * Argument parsing, file copying and printing are not modelled; the two `ResourceFile` objects
 * stand for the output copies, holding the tables of the copied containers.
 */
module Driver {
  import opened Base
  import Slicer
  import Resources
  import BitmapIds

  /** Largest default share of the first container. */
  const FirstCountCap: int := 22

  /** The options `main` acts on, after parsing. */
  datatype Options = Options(grid: Slicer.GridSpec, gap1: int, gap2: int, firstCount: Option<int>)

  /** The first container's share: the given count, or by default the smaller of rows * cols and 22. */
  function FirstCount(grid: Slicer.GridSpec, given: Option<int>): (n: int)
    ensures given.Some? ==> n == given.value
    ensures given.None? ==> n <= FirstCountCap && n <= grid.rows * grid.cols
    ensures given.None? ==> n == FirstCountCap || n == grid.rows * grid.cols
  {
    match given
    case Some(k) => k
    case None => if grid.rows * grid.cols < FirstCountCap then grid.rows * grid.cols else FirstCountCap
  }

  /** Where Python slicing with bound `k` cuts a sequence of length `n`: a negative `k` counts from the end. */
  function CutIndex(k: int, n: nat): (j: nat)
    ensures j <= n
  {
    if k >= 0 then (if k < n then k else n)
    else if n + k > 0 then n + k else 0
  }

  /** The head and tail Python slicing at `k` gives: the halves concatenate back to `s`; a non-negative `k` gives the first half
      min(k, |s|) elements, a negative `k` gives the second half the last min(-k, |s|) elements. */
  function Split<T>(s: seq<T>, k: int): (halves: (seq<T>, seq<T>))
    ensures halves.0 + halves.1 == s
    ensures k >= 0 ==> |halves.0| == if k < |s| then k else |s|
    ensures k < 0 ==> |halves.1| == if -k < |s| then -k else |s|
  {
    var j := CutIndex(k, |s|);
    (s[..j], s[j..])
  }

  /** The payload of each frame, in frame order. */
  function Payloads(frames: seq<Slicer.Frame>): (dibs: seq<seq<Byte>>)
    ensures |dibs| == |frames|
    ensures forall i :: 0 <= i < |frames| ==> dibs[i] == frames[i].dib
  {
    seq(|frames|, i requires 0 <= i < |frames| => frames[i].dib)
  }

  /** What `main` decides before writing: each container's payloads and first id. */
  datatype Plan = Plan(to1: seq<seq<Byte>>, to2: seq<seq<Byte>>, next1: int, next2: int)

  function MakePlan(opts: Options, sheet: Slicer.Rect -> seq<Byte>,
                    dir1: BitmapIds.ResourceDirectory, dir2: BitmapIds.ResourceDirectory): Plan
  {
    var dibs := Payloads(Slicer.SliceSpec(sheet, opts.grid));
    var halves := Split(dibs, FirstCount(opts.grid, opts.firstCount));
    Plan(halves.0, halves.1,
         BitmapIds.NextId(BitmapIds.BitmapIdsOf(dir1), opts.gap1),
         BitmapIds.NextId(BitmapIds.BitmapIdsOf(dir2), opts.gap2))
  }

  /** The two shares are the slicer's payloads, in order, cut after `first_count` of them. */
  lemma PlanPartitions(opts: Options, sheet: Slicer.Rect -> seq<Byte>,
                       dir1: BitmapIds.ResourceDirectory, dir2: BitmapIds.ResourceDirectory)
    ensures var plan := MakePlan(opts, sheet, dir1, dir2);
            var frames := Slicer.SliceSpec(sheet, opts.grid);
            var n := FirstCount(opts.grid, opts.firstCount);
            |plan.to1| + |plan.to2| == |frames| &&
            (forall i :: 0 <= i < |plan.to1| ==> plan.to1[i] == frames[i].dib) &&
            (forall i :: 0 <= i < |plan.to2| ==> plan.to2[i] == frames[|plan.to1| + i].dib) &&
            (n >= 0 ==> |plan.to1| == if n < |frames| then n else |frames|)
  {
  }

  /** With the defaults (4 x 6 grid, no first count) the first container gets 22 payloads and the second 2. */
  lemma DefaultSplit(opts: Options, sheet: Slicer.Rect -> seq<Byte>,
                     dir1: BitmapIds.ResourceDirectory, dir2: BitmapIds.ResourceDirectory)
    requires opts.grid.rows == 4 && opts.grid.cols == 6 && opts.firstCount.None?
    ensures |MakePlan(opts, sheet, dir1, dir2).to1| == 22
    ensures |MakePlan(opts, sheet, dir1, dir2).to2| == 2
  {
  }

  /** Each container's run starts at its largest existing bitmap id plus its gap (the gap alone when it
      has none), so with a gap of at least 1 the new ids lie above every existing one. */
  lemma PlanNextIds(opts: Options, sheet: Slicer.Rect -> seq<Byte>,
                    dir1: BitmapIds.ResourceDirectory, dir2: BitmapIds.ResourceDirectory)
    ensures var plan := MakePlan(opts, sheet, dir1, dir2);
            (plan.next1 == opts.gap1 || BitmapIds.IsBitmapId(dir1, plan.next1 - opts.gap1)) &&
            (forall x :: BitmapIds.IsBitmapId(dir1, x) ==> x + opts.gap1 <= plan.next1) &&
            (plan.next2 == opts.gap2 || BitmapIds.IsBitmapId(dir2, plan.next2 - opts.gap2)) &&
            (forall x :: BitmapIds.IsBitmapId(dir2, x) ==> x + opts.gap2 <= plan.next2)
  {
    BitmapIds.BitmapIdsExactly(dir1);
    BitmapIds.BitmapIdsExactly(dir2);
    BitmapIds.NextIdAboveExisting(BitmapIds.BitmapIdsOf(dir1), opts.gap1);
    BitmapIds.NextIdAboveExisting(BitmapIds.BitmapIdsOf(dir2), opts.gap2);
  }

  /** `main` after parsing: discover ids, slice, split, then inject the first share and, if that did not
      raise, the second; a share that is empty leaves its container untouched.  On success the id lists
      the two injections print are returned (empty for a skipped one). */
  method Run(opts: Options, sheet: Slicer.Rect -> seq<Byte>,
             dir1: BitmapIds.ResourceDirectory, dir2: BitmapIds.ResourceDirectory,
             out1: Resources.ResourceFile, out2: Resources.ResourceFile)
    returns (r: Result<(seq<int>, seq<int>), Resources.InjectError>)
    requires out1 != out2 && !out1.updating && !out2.updating
    modifies out1, out2
    ensures var plan := MakePlan(opts, sheet, dir1, dir2);
            out1.resources == if plan.to1 == [] then old(out1.resources)
                              else Resources.InjectedTable(out1, old(out1.resources), plan.next1, plan.to1)
    ensures var plan := MakePlan(opts, sheet, dir1, dir2);
            var failed1 := plan.to1 != [] && Resources.InjectOutcome(out1, plan.next1, plan.to1).Failure?;
            out2.resources == if plan.to2 == [] || failed1 then old(out2.resources)
                              else Resources.InjectedTable(out2, old(out2.resources), plan.next2, plan.to2)
    ensures var plan := MakePlan(opts, sheet, dir1, dir2);
            var r1 := if plan.to1 == [] then Success([]) else Resources.InjectOutcome(out1, plan.next1, plan.to1);
            var r2 := if plan.to2 == [] then Success([]) else Resources.InjectOutcome(out2, plan.next2, plan.to2);
            r == if r1.Failure? then Failure(r1.error)
                 else if r2.Failure? then Failure(r2.error)
                 else Success((r1.value, r2.value))
  {
    var firstCount := FirstCount(opts.grid, opts.firstCount);
    var ids1 := BitmapIds.GetBitmapIds(dir1);
    var ids2 := BitmapIds.GetBitmapIds(dir2);
    var next1 := BitmapIds.NextId(ids1, opts.gap1);
    var next2 := BitmapIds.NextId(ids2, opts.gap2);

    var frames := Slicer.SliceSheetToImages(sheet, opts.grid);
    var dibs := Payloads(frames);
    var halves := Split(dibs, firstCount);
    var to1, to2 := halves.0, halves.1;

    var written1: seq<int> := [];
    if to1 != [] {
      var r1 := Resources.UpdatePeWithBitmaps(out1, to1, next1);
      if r1.Failure? {
        return Failure(r1.error);
      }
      written1 := r1.value;
    }
    var written2: seq<int> := [];
    if to2 != [] {
      var r2 := Resources.UpdatePeWithBitmaps(out2, to2, next2);
      if r2.Failure? {
        return Failure(r2.error);
      }
      written2 := r2.value;
    }
    return Success((written1, written2));
  }
}

/**
 * How a slice comes about, call by call, and what follows from that for a slice that is declared ready:
 * where its disks stand, and within which limits.
 */
module PlanHistory {
  import opened Bytes
  import opened Streams
  import opened PlanRules
  import opened PlanTables
  import opened PlanState
  import opened PlanFill
  import opened PlanRun

  /** The disks and the slice's head between two calls. */
  datatype Moment = Moment(disks: seq<PlanDisk>, sliceSize: nat, maxFilledDisk: nat)

  /** A disk is filled up towards the fullest one, or all that the only disk with bytes has left is copied. */
  datatype Call = FillDisk(disk: nat) | CopyAll(disk: nat)

  /** A slice from the disks as they were before it, over the moment after its start, to its last moment. */
  datatype History = History(before: seq<PlanDisk>, moments: seq<Moment>, calls: seq<Call>)

  function Last(h: History): Moment
    requires |h.moments| > 0
  {
    h.moments[|h.moments| - 1]
  }

  /** The moment after disk r has become z. */
  function Grown(a: Moment, r: nat, z: PlanDisk): Moment
    requires r < |a.disks|
  {
    Moment(a.disks[r := z], Max(a.sliceSize, z.sumFilesLen), if z.sumFilesLen > a.sliceSize then r else a.maxFilledDisk)
  }

  /** All disks with their first files. */
  function StartedAll(su: Setup, before: seq<PlanDisk>): seq<PlanDisk>
    requires |before| == |su.files| == |su.filesSize|
    requires forall i {:trigger before[i]} :: 0 <= i < |before| ==> |before[i].taken| == |su.files[i]|
  {
    seq(|before|, i requires 0 <= i < |before| => Started(su, i, before[i]))
  }

  /** Two different disks have unassigned files, empty ones included. */
  predicate TwoLeft(disks: seq<PlanDisk>) {
    exists a, b {:trigger disks[a], disks[b]} :: 0 <= a < b < |disks|
      && FreeCount(disks[a].taken, |disks[a].taken|) > 0 && FreeCount(disks[b].taken, |disks[b].taken|) > 0
  }

  ghost predicate MomentOk(su: Setup, a: Moment) {
    && |a.disks| == |su.files| == |su.filesSize| && su.maxSizeDisk < |a.disks|
    && forall i {:trigger a.disks[i]} :: 0 <= i < |a.disks| ==>
      |a.disks[i].taken| == |su.files[i]| && a.disks[i].sumFilesLen <= a.sliceSize
  }

  /** One call and what it does. All that one disk has left is copied only if no second disk has files. */
  ghost predicate CallOk(su: Setup, a: Moment, c: Call, b: Moment) {
    && MomentOk(su, a) && c.disk < |a.disks| == |b.disks| && b == Grown(a, c.disk, b.disks[c.disk])
    && match c
       case FillDisk(r) =>
         IsNext(su, a.disks, a.sliceSize, a.maxFilledDisk, r) && FilledUp(su, a.sliceSize, r, a.disks[r], b.disks[r])
       case CopyAll(s) => !TwoLeft(a.disks) && b.disks[s] == AfterRest(su, s, a.disks[s])
  }

  /** The slice's first moment. */
  ghost predicate Begun(su: Setup, before: seq<PlanDisk>, m: Moment) {
    Shapes(su, before) && Cleared(before) && m.disks == StartedAll(su, before) && m.sliceSize > 0
    && HeadOk(m.disks, m.sliceSize, m.maxFilledDisk, FileCount(m.disks, |m.disks|))
  }

  ghost predicate HistoryOk(su: Setup, h: History) {
    && |h.moments| == |h.calls| + 1 && Begun(su, h.before, h.moments[0])
    && forall k, m {:trigger h.calls[k], h.moments[m]} :: 0 <= k < |h.calls| && m == k + 1 ==>
      CallOk(su, h.moments[k], h.calls[k], h.moments[m])
  }

  /** The slice is whole: it took all that its only disk had left, or it has been filled until it was balanced. */
  ghost predicate Whole(su: Setup, h: History) {
    && HistoryOk(su, h)
    && (|| (exists s: nat {:trigger CopyAll(s)} :: SoleBig(su, h.before, |h.before|, s) && h.calls == [CopyAll(s)])
        || ((forall k {:trigger h.calls[k]} :: 0 <= k < |h.calls| ==> h.calls[k].FillDisk?)
            && (forall s: nat {:trigger SoleBig(su, h.before, |h.before|, s)} :: !SoleBig(su, h.before, |h.before|, s))
            && |Last(h).disks| <= |su.filesSize| && Balanced(su, Last(h).disks, Last(h).sliceSize)))
  }

  function Then(h: History, c: Call, b: Moment): History {
    History(h.before, h.moments + [b], h.calls + [c])
  }

  lemma OneMoreCall(su: Setup, h: History, c: Call, b: Moment)
    requires HistoryOk(su, h) && CallOk(su, Last(h), c, b)
    ensures HistoryOk(su, Then(h, c, b)) && Last(Then(h, c, b)) == b
  {
    hide CallOk, Begun;
    var h2 := Then(h, c, b);
    forall k, m {:trigger h2.calls[k], h2.moments[m]} | 0 <= k < |h2.calls| && m == k + 1
      ensures CallOk(su, h2.moments[k], h2.calls[k], h2.moments[m])
    {
      if k < |h.calls| {
        assert h2.calls[k] == h.calls[k] && h2.moments[m] == h.moments[m] && h2.moments[k] == h.moments[k];
      }
    }
  }

  lemma CallAt(su: Setup, h: History, k: nat)
    requires HistoryOk(su, h) && k < |h.calls|
    ensures CallOk(su, h.moments[k], h.calls[k], h.moments[k + 1])
  {
    hide CallOk, Begun;
    var m := k + 1;
    assert CallOk(su, h.moments[k], h.calls[k], h.moments[m]);
  }

  ghost predicate Fills(h: History, n: nat)
    requires n <= |h.calls|
  {
    forall k {:trigger h.calls[k]} :: 0 <= k < n ==> h.calls[k].FillDisk?
  }

  /** What a call that fills a disk says about the two moments. */
  lemma FillFacts(su: Setup, a: Moment, r: nat, b: Moment)
    requires CallOk(su, a, FillDisk(r), b)
    ensures r < |a.disks| == |b.disks| && a.sliceSize <= b.sliceSize && b.disks == a.disks[r := b.disks[r]]
    ensures FilledUp(su, a.sliceSize, r, a.disks[r], b.disks[r]) && !a.disks[r].diskFinished
    ensures b.disks[r].filesInSlice <= su.maxFiles
  {
    hide FilledUp, AfterFill, PercentDiff, Shapes;
    DeficitFacts(su, a.disks, a.sliceSize, r);
    FillLimit(su, a.sliceSize, r, a.disks[r], b.disks[r]);
  }

  lemma FillLimit(su: Setup, sliceSize: nat, r: nat, d: PlanDisk, z: PlanDisk)
    requires FilledUp(su, sliceSize, r, d, z)
    ensures z.filesInSlice <= su.maxFiles
  {
    hide Fill, ChoiceOk, EndOk, Total, Mark, AddRows;
    FillOk(su.files[r], d.taken, su.tolerance, su.maxFiles - d.filesInSlice, sliceSize - d.sumFilesLen);
    ChoiceLimit(su.files[r], d.taken, su.maxFiles - d.filesInSlice, sliceSize - d.sumFilesLen,
                Fill(su.files[r], d.taken, su.tolerance, su.maxFiles - d.filesInSlice,
                  sliceSize - d.sumFilesLen).picks);
  }

  lemma ChoiceLimit(files: seq<File>, taken: seq<bool>, room: nat, hole: nat, picks: seq<nat>)
    requires |taken| == |files| && ChoiceOk(files, taken, room, hole, picks)
    ensures |picks| <= room
  {
  }

  /** What the first moment says about a disk. */
  lemma BegunDisk(su: Setup, before: seq<PlanDisk>, m: Moment, i: nat)
    requires Begun(su, before, m) && i < |before|
    ensures |m.disks| == |before| == |su.files| == |su.filesSize| && |before[i].taken| == |su.files[i]|
    ensures m.disks[i] == Started(su, i, before[i])
    ensures before[i].rows == [] && before[i].filesInSlice == 0 && before[i].sumFilesLen == 0 && !before[i].diskFinished
  {
    hide Started, HeadOk;
  }

  /** In a slice that is filled call by call no disk exceeds the file limit. */
  lemma {:induction false} WithinLimit(su: Setup, h: History, n: nat, i: nat)
    requires HistoryOk(su, h) && n <= |h.calls| && Fills(h, n) && i < |h.before| && su.maxFiles > 0
    ensures |h.moments[n].disks| == |h.before| && h.moments[n].disks[i].filesInSlice <= su.maxFiles
  {
    hide CallOk, Begun, Started;
    if n == 0 {
      BegunDisk(su, h.before, h.moments[0], i);
      StartedFacts(su, i, h.before[i]);
    } else {
      WithinLimit(su, h, n - 1, i);
      CallAt(su, h, n - 1);
      FillFacts(su, h.moments[n - 1], h.calls[n - 1].disk, h.moments[n]);
    }
  }

  lemma StartedFacts(su: Setup, i: nat, d: PlanDisk)
    requires i < |su.files| == |su.filesSize| && |d.taken| == |su.files[i]|
    ensures var z := Started(su, i, d);
      && |z.taken| == |d.taken| && z.diskFinished == d.diskFinished && z.consumedSize == d.consumedSize
      && d.filesInSlice <= z.filesInSlice <= d.filesInSlice + 1
      && (StartsBig(su, i, d) ==> z.filesInSlice == d.filesInSlice + 1)
  {
    hide FirstFree, Active, Total, AddRows, Mark;
  }

  /** The call that marked a disk as finished. */
  ghost predicate FinishedBy(su: Setup, h: History, n: nat, i: nat, k: nat)
    requires n < |h.moments|
  {
    && k < n && k < |h.calls| && h.calls[k] == FillDisk(i) && i < |su.files| && i < |h.moments[n].disks|
      && i < |h.moments[k + 1].disks|
    && h.moments[k + 1].disks[i] == h.moments[n].disks[i]
    && h.moments[0].sliceSize <= h.moments[k].sliceSize <= h.moments[n].sliceSize
    && FitsNone(su.files[i], h.moments[k].sliceSize, h.moments[n].disks[i])
  }

  /**
   * A finished disk was marked by a call that aimed at the slice's length at that moment, which is at least
   * the length right after the start. It has not changed since, and no file fits what it lacked then.
   */
  lemma {:induction false} FinishedHole(su: Setup, h: History, n: nat, i: nat) returns (k: nat)
    requires HistoryOk(su, h) && n <= |h.calls| && Fills(h, n) && i < |h.before|
    requires |h.moments[n].disks| == |h.before| && h.moments[n].disks[i].diskFinished
    ensures FinishedBy(su, h, n, i, k)
  {
    hide CallOk, Begun, Started, FitsNone, FilledUp;
    BegunDisk(su, h.before, h.moments[0], i);
    StartedFacts(su, i, h.before[i]);
    CallAt(su, h, n - 1);
    var a, b, r := h.moments[n - 1], h.moments[n], h.calls[n - 1].disk;
    FillFacts(su, a, r, b);
    StartGrows(su, h, n - 1);
    if r == i {
      FinishedFitsNone(su, i, a.sliceSize, a.disks[i], b.disks[i]);
      k := n - 1;
    } else {
      k := FinishedHole(su, h, n - 1, i);
    }
  }

  lemma {:induction false} StartGrows(su: Setup, h: History, n: nat)
    requires HistoryOk(su, h) && n <= |h.calls| && Fills(h, n)
    ensures h.moments[0].sliceSize <= h.moments[n].sliceSize
  {
    hide CallOk, Begun;
    if n > 0 {
      StartGrows(su, h, n - 1);
      CallAt(su, h, n - 1);
      FillFacts(su, h.moments[n - 1], h.calls[n - 1].disk, h.moments[n]);
    }
  }

  /** Where a disk may stand when a slice that is filled call by call is declared ready. */
  ghost predicate AtClose(su: Setup, h: History, i: nat)
    requires |h.moments| > 0 && i < |Last(h).disks| && i < |su.filesSize|
  {
    var d := Last(h).disks[i];
    || Same(d.sumFilesLen, Last(h).sliceSize, su.tolerance)
    || d.filesInSlice == su.maxFiles
    || su.filesSize[i] <= d.consumedSize
    || exists k: nat {:trigger FinishedBy(su, h, |h.moments| - 1, i, k)} :: FinishedBy(su, h, |h.moments| - 1, i, k)
  }

  /**
   * Balance at close: each disk of a ready slice is as long as the fullest one within the tolerance, is at
   * its file limit, has no bytes left, or was finished when no file fitted what it lacked at that moment.
   */
  lemma BalancedAtClose(su: Setup, h: History, i: nat)
    requires Whole(su, h) && Fills(h, |h.calls|) && su.maxFiles > 0 && i < |h.before|
    ensures |Last(h).disks| == |h.before| == |su.filesSize| && AtClose(su, h, i)
  {
    var n := |h.calls|;
    hide Begun, CallOk, Same, FinishedBy;
    BegunDisk(su, h.before, h.moments[0], i);
    WithinLimit(su, h, n, i);
    if Last(h).disks[i].diskFinished {
      var k := FinishedHole(su, h, n, i);
      assert FinishedBy(su, h, |h.moments| - 1, i, k);
    } else {
      FilledIsBalanced(su, h);
    }
  }

  lemma FilledIsBalanced(su: Setup, h: History)
    requires Whole(su, h) && Fills(h, |h.calls|)
    ensures |Last(h).disks| <= |su.filesSize| && Balanced(su, Last(h).disks, Last(h).sliceSize)
  {
    hide HistoryOk, Balanced, SoleBig;
    assert |h.calls| > 0 ==> h.calls[0].FillDisk?;
  }

  /**
   * A slice that only disk s starts with bytes stays within the file limit exactly if the files that the
   * disk has left after its first one do, or if as many of them as still fit pass the byte limit.
   */
  lemma SoloLimitIff(su: Setup, h: History, s: nat)
    requires SetupOk(su) && HistoryOk(su, h) && h.calls == [CopyAll(s)] && SoleBig(su, h.before, |h.before|, s)
    ensures s < |Last(h).disks| && s < |su.files| && |h.moments[0].disks[s].taken| == |su.files[s]|
    ensures Last(h).disks[s].filesInSlice <= su.maxFiles
      <==> RestWithin(su.files[s], h.moments[0].disks[s].taken, su.maxFiles - 1)
    ensures Last(h).disks[s].filesInSlice <= su.maxFiles + 2
  {
    hide Begun, Started, RestWithin, StartsBig, AfterRest, DiskSetupOk;
    BegunDisk(su, h.before, h.moments[0], s);
    StartedFacts(su, s, h.before[s]);
    CallAt(su, h, 0);
    assert DiskSetupOk(su, s);
    RestKeepsLimitIff(su, s, h.moments[0].disks[s]);
  }

  // ---------------------------------------------------------------- one disk with bytes

  /** The program stops here: one disk starts the slice, and two disks have unassigned files after that. */
  ghost predicate Stops(su: Setup, before: seq<PlanDisk>) {
    Shapes(su, before) && TwoLeft(StartedAll(su, before))
      && exists s: nat {:trigger SoleBig(su, before, |before|, s)} ::
      SoleBig(su, before, |before|, s)
  }

  /** A whole slice did not begin where the program stops. */
  lemma WholeDoesNotStop(su: Setup, h: History)
    requires Whole(su, h)
    ensures !Stops(su, h.before)
  {
    hide StartsBig, Started, TwoLeft, Balanced;
    if exists s: nat :: SoleBig(su, h.before, |h.before|, s) {
      CallAt(su, h, 0);
    }
  }
}

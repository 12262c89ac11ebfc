/**
 * The slice planner: it packs the unassigned files of all disks into slices whose disks are about
 * equally full, one transaction per slice.
 */
module Planner {
  import opened Bytes
  import opened Streams
  import opened PlanRules
  import opened PlanTables
  import opened PlanState
  import opened PlanScan
  import opened PlanFill
  import opened PlanRun
  import opened PlanHistory

  /** How planning ends; Stopped by the program's own check that no second disk has files left. */
  datatype Outcome = Complete | Limited | Cancelled | Stopped

  class Planner {
    const su: Setup
    var disks: seq<PlanDisk>
    var sliceSize: nat
    var maxFilledDisk: nat
    var filesCount: nat
    var slices: seq<Slice>

    ghost predicate Valid()
      reads this
    {
      StateOk(su, slices, disks, sliceSize, maxFilledDisk, filesCount)
    }

    constructor (su: Setup)
      requires SetupOk(su)
      ensures this.su == su && Valid() && Shapes(su, disks) && Cleared(disks)
      ensures disks == FreshDisks(su) && slices == [] && sliceSize == filesCount == 0
    {
      FreshState(su);
      this.su := su;
      disks := FreshDisks(su);
      sliceSize, maxFilledDisk, filesCount, slices := 0, 0, 0, [];
    }

    /** Adds inserted files to the counts of a disk and of the slice. */
    method FreshSliceStat(i: nat, fcount: nat, fsize: nat) returns (files: nat)
      requires i < |disks|
      modifies this`disks, this`sliceSize, this`maxFilledDisk, this`filesCount
      ensures var d := old(disks[i]);
        disks == old(disks)[i := d.(filesInSlice := d.filesInSlice + fcount, sumFilesLen := d.sumFilesLen + fsize)]
      ensures files == disks[i].filesInSlice
      ensures sliceSize == Max(old(sliceSize), disks[i].sumFilesLen)
      ensures maxFilledDisk == if disks[i].sumFilesLen > old(sliceSize) then i else old(maxFilledDisk)
      ensures filesCount == old(filesCount) + fcount
    {
      var d := disks[i];
      disks := disks[i := d.(filesInSlice := d.filesInSlice + fcount, sumFilesLen := d.sumFilesLen + fsize)];
      filesCount := filesCount + fcount;
      if disks[i].sumFilesLen > sliceSize {
        sliceSize := disks[i].sumFilesLen;
        maxFilledDisk := i;
      }
      return disks[i].filesInSlice;
    }

    /**
     * Inserts the unassigned files of a key range into the slice and marks them. The range (0, 0) stands
     * for all remaining files up to a limit. Otherwise the caller's count and sum are checked.
     */
    method Insert2Slice(i: nat, startSeq: nat, lastSeq: nat, fcount: nat, fsum: nat) returns (r: Insertion)
      requires i < |disks| == |su.files| && |disks[i].taken| == |su.files[i]| && ListOk(su.files[i])
      requires disks[i].sumFilesLen == End(disks[i].rows, |disks[i].rows|) && Contiguous(disks[i].rows)
      requires |InsertionOf(su, i, disks[i].taken, startSeq, lastSeq)| > 0
        || (startSeq == 0 && lastSeq == 0 && forall j {:trigger disks[i].taken[j]} :: 0 <= j < |disks[i].taken| ==>
          disks[i].taken[j])
      modifies this`disks, this`sliceSize, this`maxFilledDisk, this`filesCount
      ensures var picks := InsertionOf(su, i, old(disks[i].taken), startSeq, lastSeq);
        && Within(su.files[i], picks)
        && (r.Fatal? <==> !(startSeq == 0 && lastSeq == 0) && (fcount != |picks| || fsum != Total(su.files[i], picks)))
        && (r.Ok? ==>
              && disks == old(disks)[i := Inserted(su.files[i], old(disks[i]), picks)]
              && r.full == (disks[i].filesInSlice >= su.maxFiles)
              && sliceSize == Max(old(sliceSize), disks[i].sumFilesLen)
              && maxFilledDisk == (if disks[i].sumFilesLen > old(sliceSize) then i else old(maxFilledDisk))
              && filesCount == old(filesCount) + |picks|)
    {
      hide ListOk, Contiguous, InRange, AddRows, Mark, RowsTaken, Total, End, Increasing, Within;
      var rest := startSeq == 0 && lastSeq == 0;
      var from, to := From(startSeq, lastSeq), To(startSeq, lastSeq);
      var files, d := su.files[i], disks[i];
      var list := InRange(files, d.taken, from, to, |files|);
      SelectionWithin(files, d.taken, from, to);
      var rows, filesAdded, bytesAdded, seqNo := InsertRows(su, files, list, rest, d.rows, d.sumFilesLen);
      if !rest && (filesAdded != fcount || bytesAdded != fsum) {
        return Fatal;
      }
      disks := disks[i := d.(rows := rows)];
      var count := FreshSliceStat(i, filesAdded, bytesAdded);
      MarksInserted(files, d.taken, from, to, filesAdded, seqNo);
      disks := disks[i := disks[i].(taken := MarkRange(files, disks[i].taken, from, seqNo))];
      return Ok(count >= su.maxFiles);
    }

    /** One round of filling: a pass over the list and the insertion of the range it found. */
    method FillRound(i: nat, hole: nat) returns (holeSize: nat)
      requires SetupOk(su) && i < |disks| == |su.files| && hole > 0 && disks[i].filesInSlice < su.maxFiles
      requires DiskOk(su.files[i], su.filesSize[i], disks[i]) && disks[i].sumFilesLen <= sliceSize
      modifies this`disks, this`sliceSize, this`maxFilledDisk, this`filesCount
      ensures disks == old(disks)[i := AfterRound(su, i, old(disks[i]), hole).disk]
      ensures holeSize == AfterRound(su, i, old(disks[i]), hole).hole
      ensures sliceSize == Max(old(sliceSize), disks[i].sumFilesLen)
      ensures maxFilledDisk == (if disks[i].sumFilesLen > old(sliceSize) then i else old(maxFilledDisk))
      ensures filesCount == old(filesCount) + disks[i].filesInSlice - old(disks[i]).filesInSlice
    {
      ghost var d := disks[i];
      RoundFacts(su, i, d, hole);
      hide *;
      var p := ScanHole(QuestOf(su, i, disks[i], hole), i == su.maxSizeDisk, su.maxFiles, disks[i].filesInSlice);
      holeSize := p.hole;
      if p.finished {
        disks := disks[i := disks[i].(diskFinished := true)];
      }
      if p.startRowid != 0 && p.lastRowid != 0 {
        var r := Insert2Slice(i, p.startRowid, p.lastRowid, p.fileCount, p.sizeSum);
        assert r.Ok?;
        if r.full {
          holeSize := 0;
        }
      }
    }

    /** Fills a hole of a disk with files, round by round. The fatal check never fires. */
    method FillHole(i: nat, hole: nat)
      requires SetupOk(su) && i < |disks| == |su.files| && disks[i].filesInSlice < su.maxFiles
      requires DiskOk(su.files[i], su.filesSize[i], disks[i]) && PlacedOk(su.files[i], slices, i, disks[i])
      requires disks[i].sumFilesLen <= sliceSize
      modifies this`disks, this`sliceSize, this`maxFilledDisk, this`filesCount
      ensures disks == old(disks)[i := AfterFill(su, i, old(disks[i]), hole)]
      ensures DiskOk(su.files[i], su.filesSize[i], disks[i]) && PlacedOk(su.files[i], slices, i, disks[i])
      ensures disks[i].sumFilesLen >= old(disks[i]).sumFilesLen
      ensures sliceSize == Max(old(sliceSize), disks[i].sumFilesLen)
      ensures maxFilledDisk == (if disks[i].sumFilesLen > old(sliceSize) then i else old(maxFilledDisk))
      ensures filesCount == old(filesCount) + disks[i].filesInSlice - old(disks[i]).filesInSlice
    {
      ghost var d := disks[i];
      var holeSize := hole;
      FillingBegins(su, i, slices, d, hole);
      hide *;
      while holeSize > 0
        invariant |disks| == |su.files| && disks == old(disks)[i := disks[i]]
        invariant Filling(su, i, slices, d, hole, disks[i], holeSize)
        invariant sliceSize == Max(old(sliceSize), disks[i].sumFilesLen)
        invariant maxFilledDisk == (if disks[i].sumFilesLen > old(sliceSize) then i else old(maxFilledDisk))
        invariant filesCount == old(filesCount) + disks[i].filesInSlice - d.filesInSlice
        decreases su.maxFiles - disks[i].filesInSlice, holeSize
      {
        FillingFacts(su, i, slices, d, hole, disks[i], holeSize);
        FillingRound(su, i, slices, d, hole, disks[i], holeSize);
        ghost var before := disks[i];
        holeSize := FillRound(i, holeSize);
        UpdateTwice(old(disks), i, before, disks[i]);
        FillingFacts(su, i, slices, d, hole, disks[i], holeSize);
      }
      FillingFacts(su, i, slices, d, hole, disks[i], 0);
      FillingEnds(su, i, slices, d, hole, disks[i]);
    }

    /**
     * The disk to fill next: the first one with the biggest deficit, unless the disk with most data is
     * not the fullest and has one. There is none exactly if the slice is balanced. In bytes: none exactly
     * if no disk that takes files lacks noticeably many, else one that no other lacks a percent of the slice
     * more than, or the disk with most data.
     */
    method SelectNextDisk() returns (nextDisk: int)
      requires |disks| <= |su.filesSize| && su.maxSizeDisk < |disks|
      requires HeadOk(disks, sliceSize, maxFilledDisk, filesCount)
      ensures nextDisk == -1 || 0 <= nextDisk < |disks|
      ensures nextDisk == -1 <==> Balanced(su, disks, sliceSize)
      ensures nextDisk >= 0 ==> IsNext(su, disks, sliceSize, maxFilledDisk, nextDisk)
      ensures nextDisk == -1
        <==> forall i {:trigger Behind(su, i, disks[i], sliceSize)} :: 0 <= i < |disks| ==>
          !Behind(su, i, disks[i], sliceSize)
      ensures nextDisk >= 0 ==> Neediest(su, disks, sliceSize, maxFilledDisk, nextDisk)
    {
      hide PercentDiff, Percent, Same, Active, Behind, Neediest;
      ChoiceInBytes(su, disks, sliceSize, maxFilledDisk);
      var maxPercent, maxSizePercent := 0, 100;
      nextDisk := -1;
      for i := 0 to |disks|
        invariant -1 <= nextDisk < i
        invariant if nextDisk == -1 then maxPercent == 0
                  else maxPercent == Deficit(su, disks, sliceSize, nextDisk) < 0
        invariant forall k {:trigger Deficit(su, disks, sliceSize, k)} :: 0 <= k < i ==>
          maxPercent <= Deficit(su, disks, sliceSize, k)
            && (k < nextDisk ==> maxPercent < Deficit(su, disks, sliceSize, k))
        invariant su.maxSizeDisk < i && Active(su, su.maxSizeDisk, disks[su.maxSizeDisk]) ==>
          maxSizePercent == -Deficit(su, disks, sliceSize, su.maxSizeDisk)
      {
        DeficitMeans(su, disks, sliceSize, i);
        if Active(su, i, disks[i]) {
          var diff := PercentDiff(disks[i].sumFilesLen, disks[maxFilledDisk].sumFilesLen, su.tolerance);
          assert diff == Deficit(su, disks, sliceSize, i);
          if diff < maxPercent {
            nextDisk, maxPercent := i, diff;
          }
          if i == su.maxSizeDisk {
            maxSizePercent := if diff < 0 then -diff else diff;
          }
        }
      }
      forall i {:trigger disks[i]} | 0 <= i < |disks|
        ensures Deficit(su, disks, sliceSize, i) < 0
          <==> Active(su, i, disks[i]) && !Same(disks[i].sumFilesLen, sliceSize, su.tolerance)
        ensures Deficit(su, disks, sliceSize, i) == 0 || Deficit(su, disks, sliceSize, i) + su.tolerance < 0
      {
        DeficitMeans(su, disks, sliceSize, i);
      }
      if (if maxPercent < 0 then -maxPercent else maxPercent) <= su.tolerance {
        return -1;
      }
      if maxFilledDisk != su.maxSizeDisk && maxSizePercent > su.tolerance {
        if Active(su, su.maxSizeDisk, disks[su.maxSizeDisk]) {
          return su.maxSizeDisk;
        }
      }
    }

    /** Fills a disk up towards the fullest one. */
    method FillUp(r: nat, maxSize: nat)
      requires Valid() && r < |disks| <= |su.filesSize| && Deficit(su, disks, sliceSize, r) < 0
      requires maxSize == sliceSize - disks[r].sumFilesLen
      modifies this`disks, this`sliceSize, this`maxFilledDisk, this`filesCount
      ensures Valid() && Progress(old(disks), disks)
      ensures r < |disks| && disks == old(disks)[r := disks[r]]
      ensures FilledUp(su, old(sliceSize), r, old(disks[r]), disks[r])
      ensures sliceSize == Max(old(sliceSize), disks[r].sumFilesLen)
      ensures maxFilledDisk == (if disks[r].sumFilesLen > old(sliceSize) then r else old(maxFilledDisk))
      ensures disks[r].filesInSlice <= su.maxFiles && r < |su.files|
      ensures disks[r].diskFinished ==> FitsNone(su.files[r], old(sliceSize), disks[r])
      ensures WithinReach(disks[r].sumFilesLen, old(sliceSize), LastSize(disks[r].rows), su.tolerance)
    {
      ghost var before, size, top, count := disks, sliceSize, maxFilledDisk, filesCount;
      hide SetupOk, StateOk, HeadOk, DiskInv, DiskOk, PlacedOk, FitsNone, AfterFill, Progress, WithinReach, LastSize,
        Deficit, FilledUp;
      DiskFacts(su, slices, disks, size, top, count, r);
      DeficitFacts(su, disks, size, r);
      FillHole(r, maxSize);
      FillUpDone(su, slices, before, size, top, count, r, disks[r], disks, sliceSize, maxFilledDisk, filesCount);
    }

    /**
     * Picks the disk to fill next and fills it, unless the slice is balanced. Each call that picks a disk
     * assigns a file or finishes the disk, and does not overshoot by more than the tolerance allows. It
     * finishes the disk only if none of its files fits what it then lacks of the slice's present length.
     */
    method AddFile2Slice() returns (nextDisk: int)
      requires Valid()
      modifies this`disks, this`sliceSize, this`maxFilledDisk, this`filesCount
      ensures Valid() && |disks| == old(|disks|) <= |su.filesSize|
      ensures nextDisk == -1 || 0 <= nextDisk < |disks|
      ensures nextDisk == -1 <==> Balanced(su, old(disks), old(sliceSize))
      ensures nextDisk >= 0 ==> IsNext(su, old(disks), old(sliceSize), old(maxFilledDisk), nextDisk)
      ensures nextDisk == -1 ==>
        disks == old(disks) && sliceSize == old(sliceSize) && maxFilledDisk == old(maxFilledDisk)
          && filesCount == old(filesCount)
      ensures nextDisk >= 0 ==>
        && disks == old(disks)[nextDisk := disks[nextDisk]]
        && FilledUp(su, old(sliceSize), nextDisk, old(disks[nextDisk]), disks[nextDisk])
        && sliceSize == Max(old(sliceSize), disks[nextDisk].sumFilesLen)
        && maxFilledDisk == (if disks[nextDisk].sumFilesLen > old(sliceSize) then nextDisk else old(maxFilledDisk))
        && disks[nextDisk].filesInSlice <= su.maxFiles && nextDisk < |su.files|
        && (disks[nextDisk].diskFinished ==> FitsNone(su.files[nextDisk], old(sliceSize), disks[nextDisk]))
        && WithinReach(disks[nextDisk].sumFilesLen, old(sliceSize), LastSize(disks[nextDisk].rows), su.tolerance)
      ensures nextDisk >= 0 ==> Progress(old(disks), disks)
    {
      DiskFacts(su, slices, disks, sliceSize, maxFilledDisk, filesCount, 0);
      hide *;
      nextDisk := SelectNextDisk();
      if nextDisk >= 0 {
        DiskFacts(su, slices, disks, sliceSize, maxFilledDisk, filesCount, nextDisk);
        var maxSize := disks[maxFilledDisk].sumFilesLen - disks[nextDisk].sumFilesLen;
        FillUp(nextDisk, maxSize);
      }
    }

    /** Puts the first unassigned file of a disk into the slice; its size, or zero if there is none. */
    method InitSliceFiles(i: nat) returns (size: nat)
      requires Valid() && i < |disks| <= |su.files| && Active(su, i, disks[i]) && |disks[i].taken| == |su.files[i]|
      modifies this`disks, this`sliceSize, this`maxFilledDisk, this`filesCount
      ensures Valid() && |disks| == old(|disks|)
      ensures |disks| == |su.filesSize| && disks == old(disks)[i := Started(su, i, old(disks[i]))]
      ensures size > 0 <==> StartsBig(su, i, old(disks[i]))
      ensures TotalFree(disks, |disks|) + (filesCount - old(filesCount)) == old(TotalFree(disks, |disks|))
      ensures sliceSize >= old(sliceSize) && (sliceSize > old(sliceSize) ==> filesCount > old(filesCount))
      ensures size > 0 ==> sliceSize > 0
      ensures filesCount >= old(filesCount)
    {
      hide SetupOk, StateOk, HeadOk, DiskInv, DiskOk, PlacedOk, ListOk, FreePicks, Mark, AddRows, Total, InsertionOf,
        TotalFree;
      DiskFacts(su, slices, disks, sliceSize, maxFilledDisk, filesCount, i);
      StartFacts(su, slices, disks, sliceSize, maxFilledDisk, filesCount, i);
      var q := NextFree(su.files[i], disks[i].taken, LONG_MAX, 0);
      size := 0;
      if q < |su.files[i]| {
        var f := su.files[i][q];
        var r := Insert2Slice(i, f.key, f.key, 1, f.size);
        assert r.Ok?;
        size := f.size;
      }
    }

    /** Starts a slice with the first file of every disk; the disk's number if only one has a file with bytes. */
    method StartSlice() returns (solo: int)
      requires Valid() && Shapes(su, disks) && sliceSize == 0 && filesCount == 0
      modifies this`disks, this`sliceSize, this`maxFilledDisk, this`filesCount
      ensures Valid() && StartedUpTo(su, old(disks), disks, |su.files|) && |disks| == old(|disks|)
      ensures solo >= -1 && forall s :: s >= 0 ==> (solo == s <==> SoleBig(su, old(disks), |su.files|, s))
      ensures sliceSize == 0 ==> NoBig(su, old(disks), |su.files|)
      ensures TotalFree(disks, |disks|) + filesCount == old(TotalFree(disks, |disks|))
      ensures sliceSize > 0 ==> filesCount > 0
    {
      hide StateOk, StartedUpTo, SoleBig, NoBig, Active, Started, StartsBig, TotalFree, Shapes;
      ghost var before := disks;
      SizesOf(su, before);
      NothingStarted(su, before);
      var activeDisks, first := 0, 0;
      for i := 0 to |disks|
        invariant Valid() && |disks| == |before| && StartedUpTo(su, before, disks, i)
        invariant activeDisks >= 0 && first <= i && (activeDisks > 0 ==> first < i)
        invariant (activeDisks == 0 <==> NoBig(su, before, i))
        invariant forall s :: activeDisks == 1 && s == first <==> SoleBig(su, before, i, s)
        invariant activeDisks > 0 ==> sliceSize > 0
        invariant sliceSize > 0 ==> filesCount > 0
        invariant TotalFree(disks, |disks|) + filesCount == TotalFree(before, |before|)
      {
        OneMoreStarted(su, before, disks, i);
        ghost var next := i + 1;
        BigStep(su, before, i, next);
        InactiveIsNotBig(su, before, i);
        if Active(su, i, disks[i]) {
          var size := InitSliceFiles(i);
          if size > 0 {
            activeDisks := activeDisks + 1;
            first := i;
          }
        }
      }
      if activeDisks == 1 {
        return first;
      }
      return -1;
    }

    /**
     * A slice that only one disk starts with bytes takes what that disk has left, up to a limit. The counting
     * query has one group for each disk with unassigned files when it begins. The first group makes the call,
     * whichever disk it is; a second one stops the program.
     */
    method CopyRest(solo: nat) returns (fatal: bool)
      requires Valid() && Shapes(su, disks) && solo < |disks| <= |su.files| && |disks[solo].taken| == |su.files[solo]|
      modifies this`disks, this`sliceSize, this`maxFilledDisk, this`filesCount
      ensures fatal <==> TwoLeft(old(disks))
      ensures Valid() && solo < |disks| && disks == old(disks)[solo := AfterRest(su, solo, old(disks[solo]))]
      ensures sliceSize == Max(old(sliceSize), disks[solo].sumFilesLen)
      ensures maxFilledDisk == (if disks[solo].sumFilesLen > old(sliceSize) then solo else old(maxFilledDisk))
      ensures TotalFree(disks, |disks|) <= old(TotalFree(disks, |disks|))
    {
      hide SetupOk, StateOk, HeadOk, DiskInv, DiskOk, PlacedOk, ListOk, FreePicks, Mark, AddRows, Total, InsertionOf,
        TotalFree, Shapes, FreeCount, AfterRest, TwoLeft;
      DiskFacts(su, slices, disks, sliceSize, maxFilledDisk, filesCount, solo);
      RestFacts(su, slices, disks, sliceSize, maxFilledDisk, filesCount, solo);
      ghost var before := disks;
      var g, groups := NextGroup(disks, 0), disks;
      GroupsTell(before, g);
      if g < |disks| {
        SoloShape(su, disks, g);
        var r := Insert2Slice(solo, 0, 0, FreeCount(disks[g].taken, |disks[g].taken|),
                              FreeBytes(su.files[g], disks[g].taken, |disks[g].taken|));
        assert r.Ok?;
        g := NextGroup(groups, g + 1);
        return g < |groups|;
      }
      return false;
    }

    /** Closes the slice's accounts. The check of consumed against available bytes never fires. */
    method ClearSliceStat()
      requires |disks| == |su.filesSize|
      requires forall i {:trigger disks[i]} :: 0 <= i < |disks| ==>
        disks[i].consumedSize + disks[i].sumFilesLen <= su.filesSize[i]
      modifies this`disks, this`sliceSize, this`maxFilledDisk, this`filesCount
      ensures disks == ClearAll(old(disks)) && sliceSize == maxFilledDisk == filesCount == 0
    {
      sliceSize, maxFilledDisk, filesCount := 0, 0, 0;
      for i := 0 to |disks|
        invariant |disks| == |old(disks)| && sliceSize == maxFilledDisk == filesCount == 0
        invariant forall k {:trigger disks[k]} :: 0 <= k < i ==> disks[k] == ClearedDisk(old(disks)[k])
        invariant forall k {:trigger disks[k]} :: i <= k < |disks| ==> disks[k] == old(disks)[k]
      {
        var d := disks[i];
        var consumed := d.consumedSize + d.sumFilesLen;
        assert consumed <= su.filesSize[i];
        disks := disks[i := d.(consumedSize := consumed, rows := [], filesInSlice := 0, sumFilesLen := 0,
          diskFinished := false)];
      }
    }

    /** Commits the slice and gets ready for the next one. */
    method Commit()
      requires Valid()
      modifies this`disks, this`sliceSize, this`maxFilledDisk, this`filesCount, this`slices
      ensures Valid() && Cleared(disks) && disks == ClearAll(old(disks)) && sliceSize == filesCount == 0
      ensures slices == old(slices) + [Slice(RowsOf(old(disks)), old(sliceSize), old(filesCount))]
    {
      hide StateOk, Cleared, RowsOf, ClearAll;
      CommitKeepsState(su, slices, disks, sliceSize, maxFilledDisk, filesCount);
      slices := slices + [Slice(RowsOf(disks), sliceSize, filesCount)];
      ClearSliceStat();
    }

    /**
     * Plans slices until only empty files are unassigned, the limit on slices is reached, the user cancels
     * or the program stops itself. A slice that is not finished is rolled back. Every assigned file is then
     * in exactly one row of exactly one whole slice. `histories` tells how each slice came about, one after
     * the other; `next` is what a further slice would begin with.
     */
    method CreateSlices() returns (outcome: Outcome, ghost histories: seq<History>, ghost next: seq<PlanDisk>)
      requires Valid() && Shapes(su, disks) && Cleared(disks)
      requires slices == [] && sliceSize == 0 && filesCount == 0
      modifies this
      ensures CommittedOk(su, slices, disks) && ClosedAll(su, slices, histories) && Chained(old(disks), histories, next)
      ensures Ended(su, outcome, next) && SameTaken(disks, next)
      ensures AllPositive(su) ==> outcome != Stopped && (outcome == Complete ==> AllAssigned(disks))
      ensures su.maxSlices > 0 ==> |slices| <= su.maxSlices
      ensures outcome == Limited ==> su.maxSlices > 0 && |slices| == su.maxSlices
    {
      hide StateOk, Shapes, Cleared, AllPositive, CommittedOk, ClosedAll, AllAssigned, StartedUpTo, SoleBig, NoBig,
        Balanced, TotalFree, Unfinished, FilledUp, WithinReach, FitsNone, RowsOf, ClearAll, SetupOk, HistoryOk, Whole,
        Running, Chained, Ended, SameTaken, TwoLeft, AfterRest, IsNext, OnlyEmptyLeft, Stops, StartedAll, MomentOk,
        HeadOk;
      var saved, active, slcCount := disks, false, 0;
      ghost var h := History([], [], []);
      histories, outcome := [], Complete;
      NothingClosed(su, disks);
      ClearedIsCommitted(su, slices, disks, sliceSize, maxFilledDisk, filesCount);
      while true
        invariant Valid() && |saved| == |disks| && |slices| + (if active then 1 else 0) == slcCount
        invariant CommittedOk(su, slices, saved) && ClosedAll(su, slices, histories)
        invariant Chained(old(disks), histories, saved)
        invariant !active ==> Cleared(disks) && sliceSize == filesCount == 0 && saved == disks
        invariant active ==> sliceSize > 0 && Running(su, h, saved, Moment(disks, sliceSize, maxFilledDisk))
        invariant su.maxSlices > 0 ==> slcCount <= su.maxSlices
        decreases TotalFree(disks, |disks|), if sliceSize == 0 then 0 else 1 + Unfinished(disks, |disks|)
      {
        StateShapes(su, slices, disks, sliceSize, maxFilledDisk, filesCount);
        SizesOf(su, disks);
        var cancel := *;
        if cancel {
          outcome := Cancelled;
          break;
        }
        var solo := -1;
        if sliceSize == 0 {
          if su.maxSlices > 0 && slcCount >= su.maxSlices {
            outcome := Limited;
            break;
          }
          saved, active := disks, true;
          ghost var size, top, count := sliceSize, maxFilledDisk, filesCount;
          solo := StartSlice();
          if sliceSize == 0 {
            NoBigIsDone(su, slices, saved, size, top, count);
            break;
          }
          slcCount := slcCount + 1;
          h := History(saved, [Moment(disks, sliceSize, maxFilledDisk)], []);
          Begins(su, slices, saved, disks, sliceSize, maxFilledDisk, filesCount, solo);
          if solo >= 0 {
            StateShapes(su, slices, disks, sliceSize, maxFilledDisk, filesCount);
            SizesOf(su, disks);
            SoloShape(su, disks, solo);
            ghost var m := Moment(disks, sliceSize, maxFilledDisk);
            var fatal := CopyRest(solo);
            if fatal {
              StopsHere(su, slices, saved, size, top, count, solo);
              outcome := Stopped;
              break;
            }
            RestHistory(su, h, m, Moment(disks, sliceSize, maxFilledDisk), solo);
            h := Then(h, CopyAll(solo), Moment(disks, sliceSize, maxFilledDisk));
          }
        }
        var ready := solo >= 0;
        if !ready {
          ghost var m := Moment(disks, sliceSize, maxFilledDisk);
          StateMoment(su, slices, disks, sliceSize, maxFilledDisk, filesCount);
          var nextDisk := AddFile2Slice();
          FillHistory(su, h, saved, m, Moment(disks, sliceSize, maxFilledDisk), nextDisk);
          h := if nextDisk < 0 then h else Then(h, FillDisk(nextDisk), Moment(disks, sliceSize, maxFilledDisk));
          ready := nextDisk < 0;
        }
        if ready {
          CloseSlice(su, slices, histories, disks, sliceSize, maxFilledDisk, filesCount, h);
          ClearedCounts(disks, |disks|);
          ClearedLength(disks);
          Chains(old(disks), histories, h);
          histories := histories + [h];
          Commit();
          ClearedIsCommitted(su, slices, disks, sliceSize, maxFilledDisk, filesCount);
          saved, active := disks, false;
        }
      }
      next := saved;
      Ends(su, outcome, next, disks);
      if active {
        RollBackIsCommitted(su, slices, saved, disks);
        disks := RolledBack(disks, saved);
      }
    }
  }

  /** Rolling the transaction back: files are as they were, and the slice's rows are gone. */
  function RolledBack(disks: seq<PlanDisk>, saved: seq<PlanDisk>): seq<PlanDisk>
    requires |disks| == |saved|
  {
    seq(|disks|, i requires 0 <= i < |disks| => disks[i].(taken := saved[i].taken, rows := []))
  }

  lemma RollBackIsCommitted(su: Setup, slices: seq<Slice>, saved: seq<PlanDisk>, disks: seq<PlanDisk>)
    requires CommittedOk(su, slices, saved) && |disks| == |saved|
    ensures CommittedOk(su, slices, RolledBack(disks, saved))
    ensures AllAssigned(saved) ==> AllAssigned(RolledBack(disks, saved))
    ensures SameTaken(RolledBack(disks, saved), saved)
  {
    hide Placed, TakenBag, FreeCount;
    forall i | 0 <= i < |disks|
      ensures RolledBack(disks, saved)[i].taken == saved[i].taken
    {
    }
  }

  lemma NothingClosed(su: Setup, first: seq<PlanDisk>)
    ensures ClosedAll(su, [], []) && Chained(first, [], first)
  {
  }

  lemma ClearedLength(disks: seq<PlanDisk>)
    ensures |ClearAll(disks)| == |disks|
  {
  }

  /**
   * In a slice that only disk s starts with bytes, the other disks have nothing but empty files left, and
   * what the slice holds of them has no bytes.
   */
  lemma SoleBigAlone(su: Setup, slices: seq<Slice>, before: seq<PlanDisk>, sliceSize: nat, maxFilledDisk: nat,
                     filesCount: nat, s: nat, k: nat)
    requires StateOk(su, slices, before, sliceSize, maxFilledDisk, filesCount) && Shapes(su, before) && Cleared(before)
    requires SoleBig(su, before, |before|, s) && k < |before| && k != s
    ensures k < |su.files| && |before[k].taken| == |su.files[k]| && OnlyEmptyFree(su.files[k], before[k].taken)
    ensures StartedAll(su, before)[k].sumFilesLen == 0
  {
    hide StateOk, StartsBig, Started, SetupOk, Active;
    assert !StartsBig(su, k, before[k]) && |before[k].taken| == |su.files[k]|;
    NotStarted(su, slices, before, sliceSize, maxFilledDisk, filesCount, k);
  }

  /** What of a disk is unassigned decides whether it starts a slice with bytes. */
  lemma NotStarted(su: Setup, slices: seq<Slice>, disks: seq<PlanDisk>, sliceSize: nat, maxFilledDisk: nat,
                   filesCount: nat, k: nat)
    requires StateOk(su, slices, disks, sliceSize, maxFilledDisk, filesCount) && Shapes(su, disks)
    requires Cleared(disks) && k < |disks| && |disks[k].taken| == |su.files[k]|
    ensures StartsBig(su, k, disks[k]) <==> !OnlyEmptyFree(su.files[k], disks[k].taken)
    ensures !StartsBig(su, k, disks[k]) ==> Started(su, k, disks[k]).sumFilesLen == 0
  {
    hide StateOk, StartsBig, FreeCount, Active, DiskOk, HeadOk, PlacedOk, DiskInv, Started, DiskSetupOk, OnlyEmptyFree;
    DiskFacts(su, slices, disks, sliceSize, maxFilledDisk, filesCount, k);
    assert DiskSetupOk(su, k) && su.maxFiles > 0;
    hide SetupOk;
    StartsBigIff(su, k, disks[k]);
  }

  /** Nothing but empty files is unassigned. */
  ghost predicate OnlyEmptyLeft(su: Setup, disks: seq<PlanDisk>) {
    && Shapes(su, disks)
    && forall k {:trigger disks[k]} :: 0 <= k < |disks| ==> OnlyEmptyFree(su.files[k], disks[k].taken)
  }

  /** No disk starts a slice with bytes exactly if only empty files are unassigned. */
  lemma NoBigIsDone(su: Setup, slices: seq<Slice>, disks: seq<PlanDisk>, sliceSize: nat, maxFilledDisk: nat,
                    filesCount: nat)
    requires StateOk(su, slices, disks, sliceSize, maxFilledDisk, filesCount) && Shapes(su, disks) && Cleared(disks)
    ensures NoBig(su, disks, |disks|) <==> OnlyEmptyLeft(su, disks)
    ensures NoBig(su, disks, |disks|) && AllPositive(su) ==> AllAssigned(disks)
  {
    hide StateOk, StartsBig, SetupOk, Cleared, AllPositive, OnlyEmptyFree, Started, AllAssigned;
    forall k {:trigger disks[k]} | 0 <= k < |disks|
      ensures |disks[k].taken| == |su.files[k]|
      ensures (StartsBig(su, k, disks[k]) <==> !OnlyEmptyFree(su.files[k], disks[k].taken))
    {
      NotStarted(su, slices, disks, sliceSize, maxFilledDisk, filesCount, k);
    }
    if OnlyEmptyLeft(su, disks) && AllPositive(su) {
      PositiveAllAssigned(su, disks);
    }
  }

  lemma PositiveAllAssigned(su: Setup, disks: seq<PlanDisk>)
    requires OnlyEmptyLeft(su, disks) && AllPositive(su)
    ensures AllAssigned(disks)
  {
    forall k {:trigger disks[k]} | 0 <= k < |disks|
      ensures FreeCount(disks[k].taken, |disks[k].taken|) == 0
    {
      assert OnlyEmptyFree(su.files[k], disks[k].taken);
      PositiveAssigned(su.files[k], disks[k].taken);
    }
  }

  /** Without empty files, a disk that has only empty files left has none. */
  lemma PositiveAssigned(files: seq<File>, taken: seq<bool>)
    requires |files| == |taken| && OnlyEmptyFree(files, taken)
    requires forall j {:trigger files[j]} :: 0 <= j < |files| ==> files[j].size > 0
    ensures FreeCount(taken, |taken|) == 0
  {
    AllTaken(taken, |taken|);
    forall j | 0 <= j < |taken|
      ensures taken[j]
    {
      assert files[j].size > 0;
    }
  }

  /** Without empty files the program stops nowhere. */
  lemma PositiveNeverStops(su: Setup, slices: seq<Slice>, before: seq<PlanDisk>, sliceSize: nat, maxFilledDisk: nat,
                           filesCount: nat)
    requires StateOk(su, slices, before, sliceSize, maxFilledDisk, filesCount) && Shapes(su, before) && Cleared(before)
    requires AllPositive(su)
    ensures !Stops(su, before)
  {
    hide StateOk, StartsBig, SetupOk, Cleared, FreeCount, SoleBig;
    if Stops(su, before) {
      var s: nat :| SoleBig(su, before, |before|, s);
      forall k {:trigger before[k]} | 0 <= k < |before| && k != s
        ensures FreeCount(StartedAll(su, before)[k].taken, |StartedAll(su, before)[k].taken|) == 0
      {
        SoleBigAlone(su, slices, before, sliceSize, maxFilledDisk, filesCount, s, k);
        assert forall j {:trigger su.files[k][j]} :: 0 <= j < |su.files[k]| ==> su.files[k][j].size > 0;
        PositiveAssigned(su.files[k], before[k].taken);
        NothingToStart(su, k, before[k]);
      }
      assert false;
    }
  }

  /** A disk without unassigned files stays as it is when a slice starts. */
  lemma NothingToStart(su: Setup, k: nat, d: PlanDisk)
    requires k < |su.files| == |su.filesSize| && |d.taken| == |su.files[k]| && FreeCount(d.taken, |d.taken|) == 0
    ensures Started(su, k, d) == d
  {
    AllTaken(d.taken, |d.taken|);
    var q := FirstFree(su, k, d);
    assert q < |d.taken| ==> Fits(su.files[k], d.taken, LONG_MAX, q);
  }

  /** No unassigned file is left on any disk. */
  ghost predicate AllAssigned(disks: seq<PlanDisk>) {
    forall k {:trigger disks[k]} :: 0 <= k < |disks| ==> FreeCount(disks[k].taken, |disks[k].taken|) == 0
  }

  /**
   * What holds of a committed slice and the way it came about: it is whole and consists of what the disks
   * held at its last moment, its rows tile every disk's part, and it is as long as its fullest disk.
   */
  ghost predicate ClosedOk(su: Setup, slice: Slice, h: History) {
    && |h.moments| > 0 && Whole(su, h)
    && var m := Last(h);
       && |su.files| == |su.filesSize| == |m.disks| == |h.before|
       && slice == Slice(RowsOf(m.disks), m.sliceSize, FileCount(m.disks, |m.disks|)) && slice.ssize > 0
       && HeadOk(m.disks, m.sliceSize, m.maxFilledDisk, slice.filesCount)
       && forall i {:trigger m.disks[i]} :: 0 <= i < |m.disks| ==> DiskOk(su.files[i], su.filesSize[i], m.disks[i])
  }

  /** Every slice with its history. */
  ghost predicate ClosedAll(su: Setup, slices: seq<Slice>, histories: seq<History>) {
    |slices| == |histories| && forall k {:trigger slices[k]} :: 0 <= k < |slices| ==>
      ClosedOk(su, slices[k], histories[k])
  }

  /** Each slice begins with what the one before it left, and `now` is what the last one left. */
  ghost predicate Chained(first: seq<PlanDisk>, histories: seq<History>, now: seq<PlanDisk>)
    decreases |histories|
  {
    if |histories| == 0 then now == first
    else
      var n := |histories| - 1;
      |histories[n].moments| > 0 && now == ClearAll(Last(histories[n]).disks)
        && Chained(first, histories[..n], histories[n].before)
  }

  lemma Chains(first: seq<PlanDisk>, histories: seq<History>, h: History)
    requires |h.moments| > 0 && Chained(first, histories, h.before)
    ensures Chained(first, histories + [h], ClearAll(Last(h).disks))
  {
    assert (histories + [h])[..|histories|] == histories;
  }

  /** What the end of planning says about the disks that the next slice would begin with. */
  ghost predicate Ended(su: Setup, outcome: Outcome, next: seq<PlanDisk>) {
    match outcome
    case Complete => OnlyEmptyLeft(su, next)
    case Stopped => Stops(su, next)
    case _ => true
  }

  ghost predicate SameTaken(a: seq<PlanDisk>, b: seq<PlanDisk>) {
    |a| == |b| && forall i {:trigger a[i]} {:trigger b[i]} :: 0 <= i < |a| ==> a[i].taken == b[i].taken
  }

  lemma Ends(su: Setup, outcome: Outcome, next: seq<PlanDisk>, disks: seq<PlanDisk>)
    requires outcome == Complete ==> OnlyEmptyLeft(su, next)
    requires outcome == Stopped ==> Stops(su, next)
    ensures Ended(su, outcome, next) && (disks == next ==> SameTaken(disks, next))
  {
    hide OnlyEmptyLeft, Stops;
  }

  /** A slice under way: it has been filled call by call so far, and more than one disk started it with bytes. */
  ghost predicate Running(su: Setup, h: History, before: seq<PlanDisk>, m: Moment) {
    && HistoryOk(su, h) && h.before == before && Last(h) == m && Fills(h, |h.calls|)
    && forall s: nat {:trigger SoleBig(su, before, |before|, s)} :: !SoleBig(su, before, |before|, s)
  }

  /** A slice that has just been started. */
  lemma Begins(su: Setup, slices: seq<Slice>, before: seq<PlanDisk>, disks: seq<PlanDisk>, sliceSize: nat,
               maxFilledDisk: nat,
               filesCount: nat, solo: int)
    requires StateOk(su, slices, disks, sliceSize, maxFilledDisk, filesCount) && sliceSize > 0
    requires Shapes(su, before) && Cleared(before) && StartedUpTo(su, before, disks, |su.files|)
    requires solo >= -1 && forall s: int :: s >= 0 ==> (solo == s <==> SoleBig(su, before, |su.files|, s))
    ensures var m := Moment(disks, sliceSize, maxFilledDisk);
      && HistoryOk(su, History(before, [m], [])) && MomentOk(su, m) && m.disks == StartedAll(su, before)
      && (if solo < 0 then Running(su, History(before, [m], []), before, m) else SoleBig(su, before, |before|, solo))
    ensures solo < |before| == |disks|
  {
    hide Cleared, Started, StateOk, HeadOk;
    StateMoment(su, slices, disks, sliceSize, maxFilledDisk, filesCount);
    assert disks == StartedAll(su, before);
  }

  lemma StateMoment(su: Setup, slices: seq<Slice>, disks: seq<PlanDisk>, sliceSize: nat, maxFilledDisk: nat,
                    filesCount: nat)
    requires StateOk(su, slices, disks, sliceSize, maxFilledDisk, filesCount)
    ensures MomentOk(su, Moment(disks, sliceSize, maxFilledDisk))
    ensures HeadOk(disks, sliceSize, maxFilledDisk, FileCount(disks, |disks|))
  {
    hide PlacedOk, Contiguous, FreeBytes, DiskSetupOk;
    forall i {:trigger disks[i]} | 0 <= i < |disks|
      ensures |disks[i].taken| == |su.files[i]|
    {
      assert DiskInv(su, slices, i, disks[i]);
    }
  }

  /** The history of a slice that only one disk started with bytes. */
  lemma RestHistory(su: Setup, h: History, m: Moment, b: Moment, s: nat)
    requires HistoryOk(su, h) && h.moments == [m] && h.calls == [] && MomentOk(su, m)
    requires SoleBig(su, h.before, |h.before|, s) && s < |m.disks| && !TwoLeft(m.disks)
    requires b == Grown(m, s, AfterRest(su, s, m.disks[s]))
    ensures Whole(su, Then(h, CopyAll(s), b)) && Last(Then(h, CopyAll(s), b)) == b
  {
    hide HistoryOk, SoleBig, TwoLeft, AfterRest, MomentOk, Balanced;
    RestIsCall(su, m, s, b);
    OneMoreCall(su, h, CopyAll(s), b);
  }

  lemma RestIsCall(su: Setup, m: Moment, s: nat, b: Moment)
    requires MomentOk(su, m) && s < |m.disks| && !TwoLeft(m.disks) && b == Grown(m, s, AfterRest(su, s, m.disks[s]))
    ensures CallOk(su, m, CopyAll(s), b)
  {
    hide TwoLeft, AfterRest;
  }

  /** One more call in the history of a slice under way; the slice is whole if there was none. */
  lemma FillHistory(su: Setup, h: History, before: seq<PlanDisk>, m: Moment, b: Moment, r: int)
    requires Running(su, h, before, m) && MomentOk(su, m) && -1 <= r < |m.disks|
    requires r == -1 <==> Balanced(su, m.disks, m.sliceSize)
    requires r == -1 ==> b == m
    requires r >= 0 ==>
      && IsNext(su, m.disks, m.sliceSize, m.maxFilledDisk, r) && |b.disks| == |m.disks| && b == Grown(m, r, b.disks[r])
      && FilledUp(su, m.sliceSize, r, m.disks[r], b.disks[r])
    ensures h.before == before && |h.moments| > 0 && Last(h) == m
    ensures if r < 0 then Whole(su, h) else Running(su, Then(h, FillDisk(r), b), before, b)
  {
    hide HistoryOk, SoleBig, IsNext, FilledUp, Balanced;
    HistoryShape(su, h);
    if r >= 0 {
      assert CallOk(su, m, FillDisk(r), b);
      OneMoreCall(su, h, FillDisk(r), b);
    }
  }

  lemma StopsHere(su: Setup, slices: seq<Slice>, before: seq<PlanDisk>, sliceSize: nat, maxFilledDisk: nat,
                  filesCount: nat, s: nat)
    requires StateOk(su, slices, before, sliceSize, maxFilledDisk, filesCount) && Shapes(su, before) && Cleared(before)
    requires TwoLeft(StartedAll(su, before)) && SoleBig(su, before, |before|, s)
    ensures Stops(su, before) && !AllPositive(su)
  {
    hide StateOk, Cleared, SoleBig, TwoLeft, AllPositive;
    if AllPositive(su) {
      PositiveNeverStops(su, slices, before, sliceSize, maxFilledDisk, filesCount);
    }
  }

  lemma SoloShape(su: Setup, disks: seq<PlanDisk>, s: nat)
    requires Shapes(su, disks) && s < |disks|
    ensures |disks[s].taken| == |su.files[s]|
  {
  }

  /** The groups of the counting query tell whether two disks have unassigned files. */
  lemma GroupsTell(disks: seq<PlanDisk>, g: nat)
    requires g == NextGroup(disks, 0)
    ensures TwoLeft(disks) <==> g < |disks| && NextGroup(disks, g + 1) < |disks|
    ensures g == |disks| ==> forall k {:trigger disks[k]} :: 0 <= k < |disks| ==>
      FreeCount(disks[k].taken, |disks[k].taken|) == 0
  {
    hide FreeCount;
    if g < |disks| {
      var g2 := NextGroup(disks, g + 1);
      if g2 < |disks| {
        assert disks[g] == disks[g] && disks[g2] == disks[g2];
      }
    }
  }

  /** A slice that is about to be committed. */
  lemma CloseSlice(su: Setup, slices: seq<Slice>, histories: seq<History>, disks: seq<PlanDisk>, sliceSize: nat,
                   maxFilledDisk: nat, filesCount: nat, h: History)
    requires StateOk(su, slices, disks, sliceSize, maxFilledDisk, filesCount) && sliceSize > 0
    requires ClosedAll(su, slices, histories)
    requires Whole(su, h) && Last(h) == Moment(disks, sliceSize, maxFilledDisk)
    ensures ClosedAll(su, slices + [Slice(RowsOf(disks), sliceSize, filesCount)], histories + [h])
  {
    hide Whole, HeadOk, DiskOk, PlacedOk, SetupOk;
    var slice := Slice(RowsOf(disks), sliceSize, filesCount);
    assert ClosedOk(su, slice, h) by {
      hide ClosedAll;
      WholeShape(su, h);
      HeadCount(disks, sliceSize, maxFilledDisk, filesCount);
      forall i {:trigger disks[i]} | 0 <= i < |disks|
        ensures DiskOk(su.files[i], su.filesSize[i], disks[i])
      {
        assert DiskInv(su, slices, i, disks[i]);
      }
    }
    hide ClosedOk, StateOk;
  }

  lemma HistoryShape(su: Setup, h: History)
    requires HistoryOk(su, h)
    ensures |h.moments| == |h.calls| + 1 && |h.before| == |su.files| == |su.filesSize|
  {
    hide CallOk, HeadOk;
  }

  lemma WholeShape(su: Setup, h: History)
    requires Whole(su, h)
    ensures |h.moments| == |h.calls| + 1 && |h.before| == |su.files| == |su.filesSize|
  {
    hide HistoryOk, Balanced, SoleBig;
    HistoryShape(su, h);
  }

  lemma HeadCount(disks: seq<PlanDisk>, sliceSize: nat, maxFilledDisk: nat, filesCount: nat)
    requires HeadOk(disks, sliceSize, maxFilledDisk, filesCount)
    ensures filesCount == FileCount(disks, |disks|)
  {
    hide FileCount;
  }

  /** What starting a slice with the first file of a disk does. */
  lemma StartFacts(su: Setup, slices: seq<Slice>, disks: seq<PlanDisk>, sliceSize: nat, maxFilledDisk: nat,
                   filesCount: nat, i: nat)
    requires StateOk(su, slices, disks, sliceSize, maxFilledDisk, filesCount)
    requires i < |disks| == |su.files| == |su.filesSize|
    requires Active(su, i, disks[i]) && |disks[i].taken| == |su.files[i]|
    ensures ListOk(su.files[i]) && Contiguous(disks[i].rows)
    ensures disks[i].sumFilesLen == End(disks[i].rows, |disks[i].rows|)
    ensures var q, d := FirstFree(su, i, disks[i]), disks[i];
      if q == |su.files[i]| then Started(su, i, d) == d
      else
        var f := su.files[i][q];
        && f.key > 0 && InsertionOf(su, i, d.taken, f.key, f.key) == [q] && Within(su.files[i], [q])
        && Total(su.files[i], [q]) == f.size
        && Started(su, i, d) == Inserted(su.files[i], d, [q])
        && StateOk(su, slices, disks[i := Started(su, i, d)], Max(sliceSize, d.sumFilesLen + f.size),
                   if d.sumFilesLen + f.size > sliceSize then i else maxFilledDisk, filesCount + 1)
        && TotalFree(disks[i := Started(su, i, d)], |disks|) + 1 == TotalFree(disks, |disks|)
  {
    hide StateOk, HeadOk, DiskInv, PlacedOk, FreePicks, Mark, AddRows, Total, InsertionOf, TotalFree, Contiguous, End,
      ListOk, FreeBytes;
    DiskFacts(su, slices, disks, sliceSize, maxFilledDisk, filesCount, i);
    assert DiskSetupOk(su, i);
    hide SetupOk;
    SetupList(su, i);
    hide DiskSetupOk;
    var q, d := FirstFree(su, i, disks[i]), disks[i];
    if q < |su.files[i]| {
      OneFileRange(su, i, d.taken, q);
      InsertKeepsState(su, slices, disks, sliceSize, maxFilledDisk, filesCount, i, [q], Started(su, i, d));
    }
  }

  lemma SizesOf(su: Setup, disks: seq<PlanDisk>)
    requires Shapes(su, disks)
    ensures |disks| == |su.files| == |su.filesSize|
  {
  }

  lemma NothingStarted(su: Setup, disks: seq<PlanDisk>)
    requires Shapes(su, disks)
    ensures StartedUpTo(su, disks, disks, 0) && NoBig(su, disks, 0) && forall s :: !SoleBig(su, disks, 0, s)
  {
  }

  lemma InactiveIsNotBig(su: Setup, disks: seq<PlanDisk>, i: nat)
    requires Shapes(su, disks) && i < |disks|
    ensures |disks[i].taken| == |su.files[i]|
    ensures !Active(su, i, disks[i]) ==> !StartsBig(su, i, disks[i])
  {
  }

  /** What the open-ended insertion relies on and does. */
  lemma RestFacts(su: Setup, slices: seq<Slice>, disks: seq<PlanDisk>, sliceSize: nat, maxFilledDisk: nat,
                  filesCount: nat, r: nat)
    requires StateOk(su, slices, disks, sliceSize, maxFilledDisk, filesCount)
    requires r < |disks| == |su.files| == |su.filesSize|
    ensures |disks[r].taken| == |su.files[r]| && ListOk(su.files[r])
    ensures Contiguous(disks[r].rows) && disks[r].sumFilesLen == End(disks[r].rows, |disks[r].rows|)
    ensures var picks, z := InsertionOf(su, r, disks[r].taken, 0, 0), AfterRest(su, r, disks[r]);
      && Within(su.files[r], picks) && z == Inserted(su.files[r], disks[r], picks)
        && z.sumFilesLen >= disks[r].sumFilesLen
      && (|picks| == 0 ==> z == disks[r] && forall j {:trigger disks[r].taken[j]} :: 0 <= j < |disks[r].taken| ==>
        disks[r].taken[j])
      && (FreeCount(disks[r].taken, |disks[r].taken|) == 0 ==> |picks| == 0)
      && StateOk(su, slices, disks[r := z], Max(sliceSize, z.sumFilesLen),
                 if z.sumFilesLen > sliceSize then r else maxFilledDisk, filesCount + |picks|)
      && TotalFree(disks[r := z], |disks|) + |picks| == TotalFree(disks, |disks|)
  {
    hide StateOk, HeadOk, DiskInv, PlacedOk, FreePicks, Mark, AddRows, Total, InsertionOf, TotalFree, Contiguous, End,
      ListOk, FreeBytes, FreeCount;
    DiskFacts(su, slices, disks, sliceSize, maxFilledDisk, filesCount, r);
    assert DiskSetupOk(su, r);
    hide SetupOk;
    SetupList(su, r);
    hide DiskSetupOk;
    RestPicks(su, r, disks[r].taken);
    var picks := InsertionOf(su, r, disks[r].taken, 0, 0);
    if |picks| == 0 {
      AllTaken(disks[r].taken, |disks[r].taken|);
      InsertedNothing(su.files[r], disks[r]);
    }
    InsertKeepsState(su, slices, disks, sliceSize, maxFilledDisk, filesCount, r, picks,
      Inserted(su.files[r], disks[r], picks));
  }

  /** The closing UPDATE marks what has been inserted, also if that is nothing because nothing is unassigned. */
  lemma MarksInserted(files: seq<File>, taken: seq<bool>, from: nat, to: nat, m: nat, seqNo: nat)
    requires ListOk(files) && |files| == |taken|
    requires var r := InRange(files, taken, from, to, |files|);
      && m <= |r| && Within(files, r) && (m > 0 ==> seqNo == files[r[m - 1]].key)
      && (m == 0 ==> forall j {:trigger taken[j]} :: 0 <= j < |taken| ==> taken[j])
    ensures MarkRange(files, taken, from, seqNo) == Mark(taken, InRange(files, taken, from, to, |files|)[..m])
  {
    if m > 0 {
      MarkRangeIsMark(files, taken, from, to, m);
    }
  }
}

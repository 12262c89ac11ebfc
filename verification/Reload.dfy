/** From a loaded header to the archive: the rows that a written header gives back are a layout to restore from. */
module Reload {
  import opened Bytes
  import opened Streams
  import opened Hashing
  import opened HeaderText
  import opened Text
  import HeaderLoad
  import opened Archive
  import opened Restore
  import Jobs
  import Transfer

  /** The first n loaded rows that are of one disk, as transfers take them. */
  function DiskRows(rows: seq<HeaderLoad.LoadedRow>, n: nat, d: nat): seq<Row>
    requires n <= |rows|
  {
    if n == 0 then []
    else
      var r := rows[n - 1];
      DiskRows(rows, n - 1, d) + if r.disk == d then [Row(r.dseq, r.fsize, r.start)] else []
  }

  function RowsPerDisk(rows: seq<HeaderLoad.LoadedRow>, disks: nat): seq<seq<Row>> {
    seq(disks, d requires 0 <= d < disks => DiskRows(rows, |rows|, d))
  }

  /** On each disk the files are listed by descending size, as the planner lists them. */
  ghost predicate SizesFall(rows: seq<FileRow>) {
    forall j, m {:trigger rows[j].fsize, rows[m].fsize} ::
      0 <= j < m < |rows| && rows[j].disk == rows[m].disk ==> rows[j].fsize >= rows[m].fsize
  }

  /** What the header of these rows is loaded as. */
  ghost function LoadedRows(rows: seq<FileRow>): (r: seq<HeaderLoad.LoadedRow>)
    requires forall j {:trigger rows[j]} :: 0 <= j < |rows| ==> rows[j].disk < 9
    ensures |r| == |rows|
  {
    seq(|rows|, j requires 0 <= j < |rows| => HeaderLoad.Expected(rows, j))
  }

  /** A row that stands for one of the first n files, on disk d; its key tells which. */
  ghost predicate FromRow(rows: seq<FileRow>, n: nat, d: nat, row: Row)
    requires n <= |rows|
  {
    0 < row.dseq <= n && rows[row.dseq - 1].disk == d && row.fsize == rows[row.dseq - 1].fsize
  }

  ghost predicate FromRows(rows: seq<FileRow>, n: nat, d: nat, s: seq<Row>)
    requires n <= |rows|
  {
    forall a {:trigger s[a]} :: 0 <= a < |s| ==> FromRow(rows, n, d, s[a])
  }

  /** Of one disk: keys ascend, sizes descend, starts are the sums of the sizes before. */
  lemma {:induction false} DiskRowsOk(rows: seq<FileRow>, n: nat, d: nat)
    requires n <= |rows| && SizesFall(rows) && forall j {:trigger rows[j]} :: 0 <= j < |rows| ==> rows[j].disk < 9
    ensures var s := DiskRows(LoadedRows(rows), n, d);
      RowsOk(s) && End(s, |s|) == HeaderLoad.SumBefore(rows, n, d) && FromRows(rows, n, d, s)
  {
    hide RowsOk, End, SizesFall, FromRows, Path;
    NoRows(rows, d);
    if n > 0 {
      DiskRowsOk(rows, n - 1, d);
      var before := DiskRows(LoadedRows(rows), n - 1, d);
      SameFrom(rows, n - 1, d, before);
      if rows[n - 1].disk == d {
        var last := Row(n, rows[n - 1].fsize, HeaderLoad.SumBefore(rows, n - 1, d));
        OneMoreRow(rows, n - 1, d, before, last);
      } else {
        assert before + [] == before;
      }
    }
  }

  lemma NoRows(rows: seq<FileRow>, d: nat)
    ensures RowsOk([]) && End([], 0) == 0 && FromRows(rows, 0, d, [])
  {
  }

  lemma SameFrom(rows: seq<FileRow>, n: nat, d: nat, s: seq<Row>)
    requires n < |rows| && FromRows(rows, n, d, s)
    ensures FromRows(rows, n + 1, d, s)
  {
  }

  lemma OneMoreRow(rows: seq<FileRow>, n: nat, d: nat, before: seq<Row>, last: Row)
    requires n < |rows| && SizesFall(rows) && rows[n].disk == d && RowsOk(before) && FromRows(rows, n, d, before)
    requires last.dseq == n + 1 && last.fsize == rows[n].fsize && last.start == End(before, |before|)
    ensures var s := before + [last];
      RowsOk(s) && End(s, |s|) == End(before, |before|) + last.fsize && FromRows(rows, n + 1, d, s)
  {
    hide RowsOk, End;
    forall a {:trigger before[a]} | 0 <= a < |before|
      ensures FromRow(rows, n, d, before[a]) && before[a].dseq < last.dseq && before[a].fsize >= last.fsize
    {
      var j := before[a].dseq - 1;
      assert rows[j].disk == rows[n].disk ==> rows[j].fsize >= rows[n].fsize;
    }
    RowAppended(before, last);
  }

  /** A row with a larger key and no larger size, where the rows before it end. */
  lemma RowAppended(before: seq<Row>, last: Row)
    requires RowsOk(before) && last.dseq > 0 && last.start == End(before, |before|)
    requires forall a {:trigger before[a]} :: 0 <= a < |before| ==>
      before[a].dseq < last.dseq && before[a].fsize >= last.fsize
    ensures RowsOk(before + [last]) && End(before + [last], |before| + 1) == End(before, |before|) + last.fsize
  {
    hide RowsOk;
    TilesAppended(before, last);
    OrderAppended(before, last);
    RowsOkIs(before + [last]);
  }

  lemma RowsOkIs(rows: seq<Row>)
    ensures RowsOk(rows) <==> Contiguous(rows) && KeysAscend(rows) && SizesDescend(rows)
  {
    hide Contiguous, KeysAscend, SizesDescend;
  }

  lemma TilesAppended(before: seq<Row>, last: Row)
    requires RowsOk(before) && last.start == End(before, |before|)
    ensures Contiguous(before + [last]) && End(before + [last], |before| + 1) == End(before, |before|) + last.fsize
  {
    hide KeysAscend, SizesDescend;
    var s := before + [last];
    EndAppended(before, last, |before|);
    forall j {:trigger s[j].start} | 0 <= j < |s|
      ensures s[j].start == End(s, j)
    {
      EndAppended(before, last, j);
      assert j < |before| ==> before[j].start == End(before, j);
    }
  }

  lemma OrderAppended(before: seq<Row>, last: Row)
    requires RowsOk(before) && last.dseq > 0
    requires forall a {:trigger before[a]} :: 0 <= a < |before| ==>
      before[a].dseq < last.dseq && before[a].fsize >= last.fsize
    ensures KeysAscend(before + [last]) && SizesDescend(before + [last])
  {
    hide Contiguous;
    var s := before + [last];
    assert forall a {:trigger s[a]} :: 0 <= a < |before| ==> s[a] == before[a];
  }

  lemma {:induction false} EndAppended(before: seq<Row>, last: Row, k: nat)
    requires k <= |before|
    ensures End(before + [last], k) == End(before, k)
  {
    if k > 0 {
      EndAppended(before, last, k - 1);
    }
  }

  /** Some disk holds as many bytes as the slice is long. */
  lemma {:induction false} SomeLongest(rows: seq<FileRow>, m: nat, disks: nat) returns (d: nat)
    requires m <= |rows| && disks > 0 && forall j {:trigger rows[j]} :: 0 <= j < |rows| ==> rows[j].disk < disks
    ensures d < disks && HeaderLoad.SumBefore(rows, m, d) == HeaderLoad.MaxSum(rows, m)
  {
    d := 0;
    if m > 0 {
      d := SomeLongest(rows, m - 1, disks);
      if HeaderLoad.MaxSum(rows, m) != HeaderLoad.MaxSum(rows, m - 1) || rows[m - 1].disk == d {
        d := rows[m - 1].disk;
      }
    }
  }

  /**
   * A header that was written and loaded back describes a layout, if each disk's files were listed by
   * descending size and the contents have the sizes it names.
   */
  lemma LoadedIsLayout(h: Info, disks: nat, contents: seq<seq<seq<byte>>>)
    requires HeaderLoad.InfoOk(h, disks) && DisksOk(h) && disks > 0 && SizesFall(h.rows)
    requires h.sliceSize < 0x1_0000_0000_0000_0000 && |contents| == disks
    requires forall d {:trigger contents[d]} :: 0 <= d < disks ==>
      Jobs.SizesMatch(DiskRows(LoadedRows(h.rows), |h.rows|, d), contents[d])
    ensures LayoutOk(Layout(RowsPerDisk(LoadedRows(h.rows), disks), contents, h.sliceSize))
  {
    hide Jobs.SizesMatch, RowsOk, End, LoadedRows, DiskRows;
    DisksBelow(h, disks);
    hide HeaderLoad.InfoOk;
    var lay := Layout(RowsPerDisk(LoadedRows(h.rows), disks), contents, h.sliceSize);
    var n := |h.rows|;
    forall d {:trigger lay.rows[d]} {:trigger lay.files[d]} | 0 <= d < disks
      ensures RowsOk(lay.rows[d]) && Jobs.SizesMatch(lay.rows[d], lay.files[d])
      ensures End(lay.rows[d], |lay.rows[d]|) == HeaderLoad.SumBefore(h.rows, n, d) <= h.sliceSize
    {
      assert lay.files[d] == contents[d];
      DiskRowsOk(h.rows, n, d);
      HeaderLoad.MaxSumIsMax(h.rows, n, d);
    }
    var m := SomeLongest(h.rows, n, disks);
    assert End(lay.rows[m], |lay.rows[m]|) == lay.sliceSize;
  }

  lemma DisksBelow(h: Info, disks: nat)
    requires HeaderLoad.InfoOk(h, disks)
    ensures h.sliceSize == HeaderLoad.MaxSum(h.rows, |h.rows|)
    ensures forall j {:trigger h.rows[j]} :: 0 <= j < |h.rows| ==> h.rows[j].disk < disks <= 9
  {
    hide HeaderLoad.MaxSum;
  }

  /**
   * From header to restored files: the rows that the loader rebuilds from a written slice file are enough
   * to generate the slice's parity and to restore any choice of files of any disk from it, byte for byte.
   */
  method LoadThenRestore(h: Info, disks: nat, parity: string, contents: seq<seq<seq<byte>>>, header: seq<byte>,
                         syncBuf: nat, restoreBuf: nat, r: nat, wanted: seq<bool>, hash: Hash)
    returns (loaded: HeaderLoad.Loaded, saved: seq<Transfer.Saved>)
    requires HeaderLoad.InfoOk(h, disks) && DisksOk(h) && disks > 0 && SizesFall(h.rows) && |parity| == h.sliceSize
    requires h.sliceSize < 0x1_0000_0000_0000_0000 && |contents| == disks
    requires forall d {:trigger contents[d]} :: 0 <= d < disks ==>
      Jobs.SizesMatch(DiskRows(LoadedRows(h.rows), |h.rows|, d), contents[d])
    requires syncBuf > 0 && restoreBuf > 0 && Hashing.HashOk(hash)
    requires r < disks && |wanted| == |DiskRows(LoadedRows(h.rows), |h.rows|, r)|
    ensures loaded.Loaded? && loaded.rows == LoadedRows(h.rows)
    ensures |contents[r]| == |wanted| && |DiskRows(loaded.rows, |loaded.rows|, r)| == |wanted|
    ensures saved == Chosen(DiskRows(loaded.rows, |loaded.rows|, r), wanted, contents[r], |wanted|)
  {
    hide *;
    LoadedIsLayout(h, disks, contents);
    HeaderLoad.HeaderRoundTrip(h, disks, parity);
    WhatIsLoaded(h, disks, parity);
    loaded := HeaderLoad.LoadSliceHeader(SliceText(h, parity), h.sid, disks);
    var lay := Layout(RowsPerDisk(loaded.rows, disks), contents, loaded.sliceSize);
    RowsOfDisk(loaded.rows, disks, r, wanted, lay);
    saved := SyncThenRestore(lay, header, syncBuf, restoreBuf, r, wanted, hash);
  }

  lemma WhatIsLoaded(h: Info, disks: nat, parity: string)
    requires HeaderLoad.InfoOk(h, disks) && DisksOk(h) && |parity| == h.sliceSize
    ensures var l := HeaderLoad.Load(SliceText(h, parity), h.sid, disks);
      l.Loaded? && l.rows == LoadedRows(h.rows) && l.sliceSize == h.sliceSize
  {
    hide HeaderLoad.InfoOk, HeaderLoad.Load, SliceText, Header, HeaderLoad.Expected;
    HeaderLoad.HeaderRoundTrip(h, disks, parity);
  }

  lemma RowsOfDisk(rows: seq<HeaderLoad.LoadedRow>, disks: nat, r: nat, wanted: seq<bool>, lay: Layout)
    requires lay.rows == RowsPerDisk(rows, disks) && r < disks && |wanted| == |DiskRows(rows, |rows|, r)|
    ensures |lay.rows| == disks && lay.rows[r] == DiskRows(rows, |rows|, r) && WantedMatches(lay, r, wanted)
  {
  }
}

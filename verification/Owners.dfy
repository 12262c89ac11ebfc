/**
 * What the list of unrecoverable files misses when the real and the effective user differ. The query then
 * looks only at altered files of the real user, and a file that depends on another user's altered file is
 * not listed.
 */
module Owners {
  import opened Bytes
  import opened Streams
  import opened Hashing
  import Jobs
  import Transfer
  import opened Archive
  import opened Restore

  /** One byte of one file of a disk is changed. */
  function Spoiled(files: seq<seq<seq<byte>>>, i: nat, j: nat, x: nat): seq<seq<seq<byte>>>
    requires i < |files| && j < |files[i]| && x < |files[i][j]|
  {
    files[i := files[i][j := files[i][j][x := files[i][j][x] ^ 1]]]
  }

  lemma Flipped(b: byte)
    ensures b ^ 1 != b
  {
  }

  /** A request for a saved slice of which byte x of file j of disk i has changed since. */
  function AfterSpoiling(lay: Layout, header: seq<byte>, d: nat, wanted: seq<bool>, i: nat, j: nat, x: nat): Request
    requires i < |lay.files| && j < |lay.files[i]| && x < |lay.files[i][j]|
  {
    Request(lay.rows, Spoiled(lay.files, i, j, x), header + Parity(lay), |header|, lay.sliceSize, d, wanted)
  }

  lemma SpoiledFacts(files: seq<seq<seq<byte>>>, i: nat, j: nat, x: nat)
    requires i < |files| && j < |files[i]| && x < |files[i][j]|
    ensures var now := Spoiled(files, i, j, x);
      && |now| == |files| && |now[i]| == |files[i]| && |now[i][j]| == |files[i][j]| && now[i][j][x] != files[i][j][x]
      && (forall a {:trigger now[a]} :: 0 <= a < |files| && a != i ==> now[a] == files[a])
      && (forall b {:trigger now[i][b]} :: 0 <= b < |files[i]| && b != j ==> now[i][b] == files[i][b])
  {
    Flipped(files[i][j][x]);
  }

  lemma SpoiledSizes(lay: Layout, header: seq<byte>, d: nat, wanted: seq<bool>, i: nat, j: nat, x: nat)
    requires LayoutOk(lay) && WantedMatches(lay, d, wanted) && i < |lay.files| && j < |lay.files[i]|
    requires x < |lay.files[i][j]|
    ensures var rq := AfterSpoiling(lay, header, d, wanted, i, j, x);
      && RequestOk(rq) && Stored(rq) == Parity(lay)
      && forall a, b {:trigger rq.now[a][b]} :: 0 <= a < |rq.rows| && 0 <= b < |rq.rows[a]| ==>
        |rq.now[a][b]| == rq.rows[a][b].fsize
  {
    hide Parity, RowsOk, Spoiled, Meets;
    var rq := AfterSpoiling(lay, header, d, wanted, i, j, x);
    ParityStored(lay, header);
    SpoiledFacts(lay.files, i, j, x);
    forall a, b {:trigger rq.now[a][b]} | 0 <= a < |rq.rows| && 0 <= b < |rq.rows[a]|
      ensures |rq.now[a][b]| == rq.rows[a][b].fsize
    {
      assert Jobs.SizesMatch(lay.rows[a], lay.files[a]);
    }
    forall a {:trigger rq.rows[a]} {:trigger rq.now[a]} | 0 <= a < |rq.rows|
      ensures RowsOk(rq.rows[a]) && |rq.rows[a]| == |rq.now[a]| && End(rq.rows[a], |rq.rows[a]|) <= rq.sliceSize
    {
      assert Jobs.SizesMatch(lay.rows[a], lay.files[a]);
      assert rq.now[a] == lay.files[a] || a == i;
    }
  }

  lemma SpoiledNeighbours(lay: Layout, header: seq<byte>, d: nat, wanted: seq<bool>, i: nat, j: nat, x: nat, t: nat)
    requires LayoutOk(lay) && WantedMatches(lay, d, wanted) && i < |lay.files| && j < |lay.files[i]|
    requires x < |lay.files[i][j]|
    requires t < |wanted|
    ensures var rq := AfterSpoiling(lay, header, d, wanted, i, j, x);
      Concerns(rq, lay) && OtherNeighboursIntact(rq, lay, t, i)
  {
    hide Spoiled, Meets, LayoutOk, RequestOk, Parity, Stored;
    var rq := AfterSpoiling(lay, header, d, wanted, i, j, x);
    SpoiledSizes(lay, header, d, wanted, i, j, x);
    SpoiledFacts(lay.files, i, j, x);
    RequestFacts(rq);
    forall a, b {:trigger Neighbour(rq, t, a, b)} |
        0 <= a < |rq.rows| && a != i && 0 <= b < |rq.rows[a]| && Neighbour(rq, t, a, b)
      ensures a < |lay.files| && b < |rq.now[a]| && b < |lay.files[a]| && Intact(rq, lay, a, b)
    {
      LayoutDisk(lay, a);
      assert rq.now[a] == lay.files[a];
      assert rq.now[a][b][..rq.rows[a][b].fsize] == lay.files[a][b];
    }
  }

  /** Where the changed byte lies in its disk's stream, the stream has changed. */
  lemma SpoiledByte(rows: seq<Row>, files: seq<seq<byte>>, now: seq<seq<byte>>, j: nat, x: nat)
    requires Jobs.SizesMatch(rows, files) && |now| == |files| && j < |rows| && |now[j]| == |files[j]|
    requires x < |files[j]| && now[j][x] != files[j][x]
    ensures At(StreamOf(Views(rows, now)), End(rows, j) + x) != At(StreamOf(files), End(rows, j) + x)
  {
    hide StreamOf, Jobs.Agree, Views, Jobs.SizesMatch;
    SameView(rows, files, now, j);
    var views, at := Views(rows, now), End(rows, j);
    FileInStream(rows, views, j);
    FileInStream(rows, files, j);
    AgreeByte(now[j], StreamOf(views), at, rows[j].fsize, at + x);
    AgreeByte(files[j], StreamOf(files), at, rows[j].fsize, at + x);
  }

  /** A reader sees the whole of a file that still has its size. */
  lemma SameView(rows: seq<Row>, files: seq<seq<byte>>, now: seq<seq<byte>>, j: nat)
    requires Jobs.SizesMatch(rows, files) && |now| == |files| && j < |rows| && |now[j]| == |files[j]|
    ensures |rows| == |files| && Views(rows, now)[j] == now[j] && |now[j]| == rows[j].fsize
  {
    assert now[j][..rows[j].fsize] == now[j];
  }

  /**
   * Whatever the layout: if an altered file shares a slice position with a file of another disk, there is a
   * change of that altered file alone after which the other one is restored with wrong bytes.
   */
  lemma OverlookedSpoils(lay: Layout, header: seq<byte>, d: nat, wanted: seq<bool>, t: nat, q: Query, i: nat, j: nat,
                         x: nat)
    requires LayoutOk(lay) && WantedMatches(lay, d, wanted) && t < |wanted| && QueryFor(lay.rows, q)
    requires i < |lay.files| && j < |lay.files[i]| && x < |lay.files[i][j]| && i != d
    requires i < |q.altered| && j < |q.altered[i]| && q.altered[i][j]
    requires lay.rows[d][t].start <= lay.rows[i][j].start + x < lay.rows[d][t].start + lay.rows[d][t].fsize
    ensures var rq := AfterSpoiling(lay, header, d, wanted, i, j, x);
      && Outdated(rq, lay, q) && RequestOk(rq) && t < |lay.files[d]| && t < |Written(rq)|
      && Written(rq)[t] != lay.files[d][t]
  {
    hide LayoutOk, RequestOk, OtherNeighboursIntact, Parity, Stored, XorWindow, StreamsNow, Meets, StreamOf, Spoiled;
    var rq := AfterSpoiling(lay, header, d, wanted, i, j, x);
    SpoiledSizes(lay, header, d, wanted, i, j, x);
    SpoiledNeighbours(lay, header, d, wanted, i, j, x, t);
    OnlyThatDiffers(lay, q, i, j, x);
    OneAlteredDisk(rq, lay, t, i);
    SpoiledStream(lay, header, d, wanted, i, j, x);
    ParityStored(lay, header);
    var row := lay.rows[d][t];
    assert XorWindow(StreamsNow(rq), rq.disk, row.start, row.fsize) == Written(rq)[t];
  }

  lemma OnlyThatDiffers(lay: Layout, q: Query, i: nat, j: nat, x: nat)
    requires LayoutOk(lay) && QueryFor(lay.rows, q) && i < |lay.files| && j < |lay.files[i]| && x < |lay.files[i][j]|
    requires i < |q.altered| && j < |q.altered[i]| && q.altered[i][j]
    ensures OnlyAlteredDiffer(lay, Spoiled(lay.files, i, j, x), q.altered)
  {
    hide Spoiled, RowsOk;
    SpoiledFacts(lay.files, i, j, x);
    forall a | 0 <= a < |lay.rows|
      ensures |lay.rows[a]| == |lay.files[a]|
    {
      assert Jobs.SizesMatch(lay.rows[a], lay.files[a]);
    }
  }

  lemma SpoiledStream(lay: Layout, header: seq<byte>, d: nat, wanted: seq<bool>, i: nat, j: nat, x: nat)
    requires LayoutOk(lay) && WantedMatches(lay, d, wanted) && i < |lay.files| && j < |lay.files[i]|
    requires x < |lay.files[i][j]|
    ensures var rq := AfterSpoiling(lay, header, d, wanted, i, j, x);
      RequestOk(rq) && i < |lay.rows| && j < |lay.rows[i]|
      && At(StreamsNow(rq)[i], lay.rows[i][j].start + x) != At(StreamOf(lay.files[i]), lay.rows[i][j].start + x)
  {
    hide LayoutOk, RequestOk, Parity, Stored, StreamOf, Spoiled, RowsOk;
    var rq := AfterSpoiling(lay, header, d, wanted, i, j, x);
    SpoiledSizes(lay, header, d, wanted, i, j, x);
    SpoiledFacts(lay.files, i, j, x);
    LayoutSize(lay);
    LayoutDisk(lay, i);
    RowAt(lay.rows[i], lay.files[i], j);
    SpoiledByte(lay.rows[i], lay.files[i], rq.now[i], j, x);
  }

  // ---------------------------------------------------------------- when a file always comes back right

  /** Two rows have a slice position in common. */
  predicate Shares(a: Row, b: Row) {
    a.fsize > 0 && b.fsize > 0 && a.start < b.start + b.fsize && b.start < a.start + a.fsize
  }

  /** Some altered row of another disk shares a slice position with row t. */
  ghost predicate AlteredShares(rows: seq<seq<Row>>, q: Query, d: nat, t: nat)
    requires QueryFor(rows, q) && d < |rows| && t < |rows[d]|
  {
    exists i, j {:trigger q.altered[i][j]} ::
      0 <= i < |rows| && 0 <= j < |rows[i]| && i != d && q.altered[i][j] && Shares(rows[d][t], rows[i][j])
  }

  /** Whatever has become of the altered files, row t comes back as it was. */
  ghost predicate AlwaysRight(lay: Layout, q: Query, d: nat, t: nat) {
    forall rq: Request {:trigger Outdated(rq, lay, q)} ::
      Outdated(rq, lay, q) && RequestOk(rq) && rq.disk == d && t < |rq.wanted| ==> RightAt(rq, lay, t)
  }

  ghost predicate RightAt(rq: Request, lay: Layout, t: nat)
    requires RequestOk(rq)
  {
    rq.disk < |lay.files| && t < |lay.files[rq.disk]| && t < |Written(rq)| && Written(rq)[t] == lay.files[rq.disk][t]
  }

  /** Inside the extent of a row that shares nothing with an altered row, the other disks' streams are as before. */
  lemma UnsharedStream(rq: Request, lay: Layout, q: Query, t: nat, i: nat, k: nat)
    requires Outdated(rq, lay, q) && RequestOk(rq) && t < |rq.wanted| && !AlteredShares(lay.rows, q, rq.disk, t)
    requires i < |rq.rows| && i != rq.disk
    requires var row := rq.rows[rq.disk][t]; row.start <= k < row.start + row.fsize
    ensures i < |lay.files| && At(StreamsNow(rq)[i], k) == At(StreamOf(lay.files[i]), k)
  {
    hide LayoutOk, StreamOf, Parity, Stored, Jobs.SizesMatch, View, AlteredShares;
    LayoutSize(lay);
    LayoutDisk(lay, i);
    var rows, now, orig := rq.rows[i], rq.now[i], lay.files[i];
    StreamLengths(rows, now, orig);
    if k < End(rows, |rows|) {
      var j := RowContaining(rows, |rows|, k);
      SharedByte(lay, q, rq.disk, t, i, j, k);
      UnchangedFile(rows, orig, j);
      SameByte(rows, Views(rows, now), orig, j, k);
    }
  }

  lemma StreamLengths(rows: seq<Row>, now: seq<seq<byte>>, orig: seq<seq<byte>>)
    requires |rows| == |now| && Jobs.SizesMatch(rows, orig)
    ensures |StreamOf(Views(rows, now))| == |StreamOf(orig)| == End(rows, |rows|)
  {
    ConcatLength(rows, Views(rows, now), |rows|);
    ConcatLength(rows, orig, |rows|);
  }

  /** A row that contains a position of row t shares it, so it is not altered. */
  lemma SharedByte(lay: Layout, q: Query, d: nat, t: nat, i: nat, j: nat, k: nat)
    requires LayoutOk(lay) && QueryFor(lay.rows, q) && d < |lay.rows| && t < |lay.rows[d]|
    requires !AlteredShares(lay.rows, q, d, t)
    requires i < |lay.rows| && i != d && j < |lay.rows[i]| && End(lay.rows[i], j) <= k < End(lay.rows[i], j + 1)
    requires lay.rows[d][t].start <= k < lay.rows[d][t].start + lay.rows[d][t].fsize
    ensures !q.altered[i][j]
  {
    hide RowsOk, LayoutOk, Jobs.SizesMatch;
    LayoutDisk(lay, i);
    RowCount(lay.rows[i], lay.files[i]);
    RowAt(lay.rows[i], lay.files[i], j);
    assert Shares(lay.rows[d][t], lay.rows[i][j]);
  }

  /** A row that shares nothing with an altered row comes back right. */
  lemma UnsharedRight(rq: Request, lay: Layout, q: Query, t: nat)
    requires Outdated(rq, lay, q) && RequestOk(rq) && t < |rq.wanted| && !AlteredShares(lay.rows, q, rq.disk, t)
    ensures RightAt(rq, lay, t)
  {
    hide RequestOk, LayoutOk, StreamOf, XorAt, StreamsNow, Jobs.Agree, Parity, Stored, AlteredShares, OnlyAlteredDiffer,
      QueryFor;
    TargetFacts(rq, lay, t);
    var row, file := rq.rows[rq.disk][t], lay.files[rq.disk][t];
    FileInStream(rq.rows[rq.disk], lay.files[rq.disk], t);
    forall x | 0 <= x < row.fsize
      ensures XorAt(StreamsNow(rq), rq.disk, row.start + x) == file[x]
    {
      var k := row.start + x;
      OriginalByte(rq, lay, t, k);
      forall i | 0 <= i < |StreamsNow(rq)| && i != rq.disk
        ensures At(StreamsNow(rq)[i], k) == At(Originals(lay)[i], k)
      {
        if i < |lay.files| {
          UnsharedStream(rq, lay, q, t, i, k);
        }
      }
      SameXor(StreamsNow(rq), Originals(lay), rq.disk, k);
      AgreeByte(file, StreamOf(lay.files[rq.disk]), row.start, row.fsize, k);
    }
  }

  /** An altered row that shares a slice position with row t can spoil it. */
  lemma SharedWrong(lay: Layout, q: Query, d: nat, t: nat, i: nat, j: nat)
    requires LayoutOk(lay) && QueryFor(lay.rows, q) && d < |lay.rows| && t < |lay.rows[d]|
    requires i < |lay.rows| && j < |lay.rows[i]| && i != d && q.altered[i][j] && Shares(lay.rows[d][t], lay.rows[i][j])
    ensures !AlwaysRight(lay, q, d, t)
  {
    hide LayoutOk, RequestOk, Written, Parity, Stored, OnlyAlteredDiffer, Outdated, Spoiled;
    LayoutSize(lay);
    LayoutDisk(lay, i);
    RowCount(lay.rows[i], lay.files[i]);
    RowAt(lay.rows[i], lay.files[i], j);
    var a, b := lay.rows[d][t], lay.rows[i][j];
    var x := if a.start <= b.start then 0 else a.start - b.start;
    var wanted := seq(|lay.rows[d]|, _ => true);
    OverlookedSpoils(lay, [], d, wanted, t, q, i, j, x);
    assert !RightAt(AfterSpoiling(lay, [], d, wanted, i, j, x), lay, t);
  }

  /** Exactly when a file comes back right whatever has become of the altered ones. */
  lemma AlwaysRightIff(lay: Layout, q: Query, d: nat, t: nat)
    requires LayoutOk(lay) && QueryFor(lay.rows, q) && d < |lay.rows| && t < |lay.rows[d]|
    ensures AlwaysRight(lay, q, d, t) <==> !AlteredShares(lay.rows, q, d, t)
  {
    hide LayoutOk, RequestOk, RightAt, Shares;
    if AlteredShares(lay.rows, q, d, t) {
      var i: nat, j: nat :| i < |lay.rows| && j < |lay.rows[i]| && i != d && q.altered[i][j]
        && Shares(lay.rows[d][t], lay.rows[i][j]);
      SharedWrong(lay, q, d, t, i, j);
    } else {
      hide AlteredShares;
      forall rq: Request {:trigger Outdated(rq, lay, q)} |
          Outdated(rq, lay, q) && RequestOk(rq) && rq.disk == d && t < |rq.wanted|
        ensures RightAt(rq, lay, t)
      {
        UnsharedRight(rq, lay, q, t);
      }
    }
  }

  /** Some altered row that the query overlooks shares a slice position with row t. */
  ghost predicate OverlookedShares(rows: seq<seq<Row>>, q: Query, d: nat, t: nat)
    requires QueryFor(rows, q) && d < |rows| && t < |rows[d]|
  {
    exists i, j {:trigger q.altered[i][j]} :: 0 <= i < |rows| && 0 <= j < |rows[i]| && i != d
      && q.altered[i][j] && !Reported(q, i, j) && Shares(rows[d][t], rows[i][j])
  }

  /**
   * The list's exactness: leaving row t out of it is right if and only if the owner filter overlooks no
   * altered row that shares a slice position with row t.
   */
  lemma LeftOutRightlyIff(lay: Layout, q: Query, d: nat, t: nat)
    requires LayoutOk(lay) && QueryFor(lay.rows, q) && d < |lay.rows| && t < |lay.rows[d]|
    requires !Listed(lay.rows, q, d, t)
    ensures AlwaysRight(lay, q, d, t) <==> !OverlookedShares(lay.rows, q, d, t)
  {
    hide LayoutOk, AlwaysRight;
    AlwaysRightIff(lay, q, d, t);
    if AlteredShares(lay.rows, q, d, t) {
      var i: nat, j: nat :| i < |lay.rows| && j < |lay.rows[i]| && i != d && q.altered[i][j]
        && Shares(lay.rows[d][t], lay.rows[i][j]);
      assert Touches(lay.rows, d, t, i, j);
    }
  }

  // ---------------------------------------------------------------- what is listed, and whether it has to be

  /** A slice position that lies in or at the end of both rows. */
  predicate Common(a: Row, b: Row, x: nat) {
    a.start <= x <= a.start + a.fsize && b.start <= x <= b.start + b.fsize
  }

  /** An altered row of another disk that belongs to the real user, or to anyone if there is one user. */
  ghost predicate Asked(rows: seq<seq<Row>>, q: Query, d: nat, i: nat, j: nat)
    requires QueryFor(rows, q)
  {
    && i < |rows| && j < |rows[i]| && i != d && q.altered[i][j]
    && (q.userId != q.euserId ==> q.owners[i][j] == q.userId)
  }

  /**
   * Exactly what is listed: the rows that have a position in common with some altered row of another disk
   * that the query asks about, ends included.
   */
  lemma ListedIff(rows: seq<seq<Row>>, q: Query, d: nat, t: nat)
    requires QueryFor(rows, q) && d < |rows| && t < |rows[d]|
    ensures Listed(rows, q, d, t) <==> exists i: nat, j: nat, x: nat {:trigger Common(rows[d][t], rows[i][j], x)} ::
      Asked(rows, q, d, i, j) && Common(rows[d][t], rows[i][j], x)
  {
    if Listed(rows, q, d, t) {
      var i: nat, j: nat :| i < |rows| && j < |rows[i]| && i != d && Reported(q, i, j) && Touches(rows, d, t, i, j);
      var x := Max(rows[d][t].start, rows[i][j].start);
      assert Asked(rows, q, d, i, j) && Common(rows[d][t], rows[i][j], x);
    }
    if i: nat, j: nat, x: nat :| Asked(rows, q, d, i, j) && Common(rows[d][t], rows[i][j], x) {
      assert Reported(q, i, j) && Touches(rows, d, t, i, j);
    }
  }

  /** Only row t is wanted. */
  predicate OnlyWanted(wanted: seq<bool>, t: nat) {
    t < |wanted| && forall u {:trigger wanted[u]} :: 0 <= u < |wanted| ==> (wanted[u] <==> u == t)
  }

  /** Whatever has become of the altered files, row t alone can be restored and comes back as it was. */
  ghost predicate AlwaysRestorable(lay: Layout, q: Query, d: nat, t: nat) {
    forall rq: Request {:trigger Outdated(rq, lay, q)} ::
      Outdated(rq, lay, q) && rq.disk == d && OnlyWanted(rq.wanted, t) ==> RequestOk(rq) && RightAt(rq, lay, t)
  }

  /** Some altered row of another disk, with bytes, has a position in common with row t, ends included. */
  ghost predicate AlteredTouches(rows: seq<seq<Row>>, q: Query, d: nat, t: nat)
    requires QueryFor(rows, q) && d < |rows| && t < |rows[d]|
  {
    exists i: nat, j: nat {:trigger q.altered[i][j]} :: i < |rows| && j < |rows[i]| && i != d && q.altered[i][j]
      && rows[i][j].fsize > 0 && Touches(rows, d, t, i, j)
  }

  /** The rows of a layout, with the bytes of the disks as they are now. */
  lemma OutdatedShape(rq: Request, lay: Layout, q: Query)
    requires Outdated(rq, lay, q)
    ensures |rq.rows| == |rq.now| && rq.disk < |rq.rows| && |rq.wanted| == |rq.rows[rq.disk]|
    ensures rq.headerSize + rq.sliceSize <= |rq.sliceFile| && rq.sliceSize < 0x1_0000_0000_0000_0000
    ensures forall i {:trigger rq.rows[i]} {:trigger rq.now[i]} :: 0 <= i < |rq.rows| ==>
      RowsOk(rq.rows[i]) && |rq.rows[i]| == |rq.now[i]| && End(rq.rows[i], |rq.rows[i]|) <= rq.sliceSize
  {
    hide RowsOk, Parity, Stored, Jobs.SizesMatch;
    LayoutSize(lay);
    forall i {:trigger rq.rows[i]} {:trigger rq.now[i]} | 0 <= i < |rq.rows|
      ensures RowsOk(rq.rows[i]) && End(rq.rows[i], |rq.rows[i]|) <= rq.sliceSize
    {
      LayoutDisk(lay, i);
    }
  }

  /** What restoring row t opens can be read, if no altered row with bytes touches it. */
  lemma UntouchedReadable(rq: Request, lay: Layout, q: Query, t: nat, i: nat, j: nat)
    requires Outdated(rq, lay, q) && t < |rq.wanted| && !AlteredTouches(lay.rows, q, rq.disk, t)
    requires i < |rq.rows| && j < |rq.rows[i]| && Neighbour(rq, t, i, j)
    ensures i < |rq.now| && j < |rq.now[i]| && |rq.now[i][j]| >= rq.rows[i][j].fsize
  {
    hide LayoutOk, Parity, Stored, RowsOk, Jobs.SizesMatch, OnlyAlteredDiffer;
    OutdatedShape(rq, lay, q);
    LayoutSize(lay);
    LayoutDisk(lay, i);
    LayoutDisk(lay, rq.disk);
    RowCount(lay.rows[i], lay.files[i]);
    RowCount(lay.rows[rq.disk], lay.files[rq.disk]);
    RowAt(lay.rows[i], lay.files[i], j);
    RowAt(lay.rows[rq.disk], lay.files[rq.disk], t);
    AlteredFacts(lay, rq.now, q.altered, i, j);
    assert Touches(lay.rows, rq.disk, t, i, j);
  }

  /** Then the row shares nothing with an altered row either. */
  lemma UntouchedUnshared(rows: seq<seq<Row>>, q: Query, d: nat, t: nat)
    requires QueryFor(rows, q) && d < |rows| && t < |rows[d]| && !AlteredTouches(rows, q, d, t)
    ensures !AlteredShares(rows, q, d, t)
  {
  }

  /** One file is gone. */
  function Emptied(files: seq<seq<seq<byte>>>, i: nat, j: nat): seq<seq<seq<byte>>>
    requires i < |files| && j < |files[i]|
  {
    files[i := files[i][j := []]]
  }

  function AfterLoss(lay: Layout, d: nat, t: nat, i: nat, j: nat): Request
    requires d < |lay.rows| && i < |lay.files| && j < |lay.files[i]|
  {
    Request(lay.rows, Emptied(lay.files, i, j), Parity(lay), 0, lay.sliceSize, d, seq(|lay.rows[d]|, u => u == t))
  }

  /** If an altered file with bytes that touches row t is gone, restoring row t cannot read all that it opens. */
  lemma LossStops(lay: Layout, q: Query, d: nat, t: nat, i: nat, j: nat)
    requires LayoutOk(lay) && QueryFor(lay.rows, q) && d < |lay.rows| && t < |lay.rows[d]|
    requires i < |lay.rows| == |lay.files| && j < |lay.rows[i]| == |lay.files[i]| && i != d && q.altered[i][j]
    requires lay.rows[i][j].fsize > 0 && Touches(lay.rows, d, t, i, j)
    ensures Outdated(AfterLoss(lay, d, t, i, j), lay, q) && OnlyWanted(AfterLoss(lay, d, t, i, j).wanted, t)
    ensures !RequestOk(AfterLoss(lay, d, t, i, j))
  {
    hide LayoutOk, Parity, RowsOk, Jobs.SizesMatch;
    var rq := AfterLoss(lay, d, t, i, j);
    ParityStored(lay, []);
    assert [] + Parity(lay) == Parity(lay);
    LossDiffers(lay, q, i, j);
    LayoutDisk(lay, i);
    RowAt(lay.rows[i], lay.files[i], j);
    assert Neighbour(rq, t, i, j);
    assert rq.now[i][j] == [];
  }

  lemma LossDiffers(lay: Layout, q: Query, i: nat, j: nat)
    requires LayoutOk(lay) && QueryFor(lay.rows, q) && i < |lay.files| && j < |lay.files[i]|
    requires i < |q.altered| && j < |q.altered[i]| && q.altered[i][j]
    ensures OnlyAlteredDiffer(lay, Emptied(lay.files, i, j), q.altered)
  {
    hide RowsOk;
    forall a | 0 <= a < |lay.rows|
      ensures |lay.rows[a]| == |lay.files[a]|
    {
      assert Jobs.SizesMatch(lay.rows[a], lay.files[a]);
    }
  }

  /**
   * Which files have to be listed: row t can be restored on its own, and comes back right, whatever has
   * become of the altered files, if and only if no altered row of another disk that has bytes touches it.
   */
  lemma AlwaysRestorableIff(lay: Layout, q: Query, d: nat, t: nat)
    requires LayoutOk(lay) && QueryFor(lay.rows, q) && d < |lay.rows| && t < |lay.rows[d]|
    ensures AlwaysRestorable(lay, q, d, t) <==> !AlteredTouches(lay.rows, q, d, t)
  {
    hide LayoutOk, RightAt, Outdated, OnlyWanted, RequestOk;
    if AlteredTouches(lay.rows, q, d, t) {
      var i: nat, j: nat :| i < |lay.rows| && j < |lay.rows[i]| && i != d && q.altered[i][j]
        && lay.rows[i][j].fsize > 0 && Touches(lay.rows, d, t, i, j);
      LayoutSize(lay);
      LayoutDisk(lay, i);
      RowCount(lay.rows[i], lay.files[i]);
      LossStops(lay, q, d, t, i, j);
    } else {
      hide AlteredTouches;
      forall rq: Request {:trigger Outdated(rq, lay, q)} |
          Outdated(rq, lay, q) && rq.disk == d && OnlyWanted(rq.wanted, t)
        ensures RequestOk(rq) && RightAt(rq, lay, t)
      {
        UntouchedRestorable(rq, lay, q, t);
      }
    }
  }

  lemma UntouchedRestorable(rq: Request, lay: Layout, q: Query, t: nat)
    requires Outdated(rq, lay, q) && OnlyWanted(rq.wanted, t) && QueryFor(lay.rows, q)
    requires rq.disk < |lay.rows| && t < |lay.rows[rq.disk]| && !AlteredTouches(lay.rows, q, rq.disk, t)
    ensures RequestOk(rq) && RightAt(rq, lay, t)
  {
    hide AlteredTouches, Outdated, Neighbour, RowsOk, RightAt, QueryFor;
    OutdatedShape(rq, lay, q);
    OutdatedRows(rq, lay, q);
    forall u, i, j {:trigger Neighbour(rq, u, i, j)} | 0 <= u < |rq.wanted| && rq.wanted[u]
        && 0 <= i < |rq.rows| && 0 <= j < |rq.rows[i]| && Neighbour(rq, u, i, j)
      ensures j < |rq.now[i]| && |rq.now[i][j]| >= rq.rows[i][j].fsize
    {
      assert u == t;
      UntouchedReadable(rq, lay, q, t, i, j);
    }
    assert RequestOk(rq);
    hide RequestOk;
    UntouchedUnshared(lay.rows, q, rq.disk, t);
    UnsharedRight(rq, lay, q, t);
  }

  lemma OutdatedRows(rq: Request, lay: Layout, q: Query)
    requires Outdated(rq, lay, q)
    ensures rq.rows == lay.rows
  {
    hide LayoutOk, OnlyAlteredDiffer, Parity, Stored, QueryFor;
  }

  /**
   * With nothing overlooked every file that is not always restorable is listed, and every file listed is not
   * always restorable, unless it touches an altered file without bytes.
   */
  lemma ListedNeeded(lay: Layout, q: Query, d: nat, t: nat)
    requires LayoutOk(lay) && QueryFor(lay.rows, q) && d < |lay.rows| && t < |lay.rows[d]|
    ensures !AlwaysRestorable(lay, q, d, t) && NoneOverlooked(lay.rows, q, d, t) ==> Listed(lay.rows, q, d, t)
    ensures Listed(lay.rows, q, d, t) && AlwaysRestorable(lay, q, d, t) ==>
      exists i: nat, j: nat {:trigger q.altered[i][j]} ::
        i < |lay.rows| && j < |lay.rows[i]| && i != d && q.altered[i][j] && lay.rows[i][j].fsize == 0
        && Touches(lay.rows, d, t, i, j)
  {
    hide LayoutOk, AlwaysRestorable;
    AlwaysRestorableIff(lay, q, d, t);
  }

  /** There is one user only, or all altered rows are the real user's. */
  ghost predicate AllReported(q: Query)
    requires |q.altered| == |q.owners| && forall i :: 0 <= i < |q.altered| ==> |q.altered[i]| == |q.owners[i]|
  {
    || q.userId == q.euserId
    || forall i, j {:trigger q.altered[i][j]} {:trigger q.owners[i][j]} ::
         0 <= i < |q.altered| && 0 <= j < |q.altered[i]| && q.altered[i][j] ==> q.owners[i][j] == q.userId
  }

  /** Then nothing is overlooked about any row. */
  lemma OneUserOverlooksNone(rows: seq<seq<Row>>, q: Query, d: nat, t: nat)
    requires QueryFor(rows, q) && AllReported(q) && d < |rows| && t < |rows[d]|
    ensures NoneOverlooked(rows, q, d, t) && !OverlookedShares(rows, q, d, t)
  {
  }

  /**
   * Over whole runs, whoever owns what: a restore that finds what it opens gives back every wanted file
   * that shares no slice position with an altered file of another disk.
   */
  method RestoreUnshared(rq: Request, lay: Layout, q: Query, bufSize: nat, hash: Hash)
    returns (saved: seq<Transfer.Saved>)
    requires Outdated(rq, lay, q) && RequestOk(rq) && bufSize > 0 && HashOk(hash)
    requires forall t {:trigger rq.wanted[t]} ::
      0 <= t < |rq.wanted| && rq.wanted[t] ==> !AlteredShares(lay.rows, q, rq.disk, t)
    ensures rq.disk < |lay.files| && |lay.files[rq.disk]| == |rq.wanted|
    ensures saved == Chosen(lay.rows[rq.disk], rq.wanted, lay.files[rq.disk], |rq.wanted|)
  {
    hide RequestOk, Outdated, AlteredShares, Chosen, Written, HashOk, QueryFor;
    OutdatedFacts(rq, lay, q);
    saved := RestoreFiles(rq, bufSize, hash);
    forall t | 0 <= t < |rq.wanted| && rq.wanted[t]
      ensures Written(rq)[t] == lay.files[rq.disk][t]
    {
      UnsharedRight(rq, lay, q, t);
    }
    ChosenAgree(rq.rows[rq.disk], rq.wanted, Written(rq), lay.files[rq.disk], |rq.wanted|);
  }

  lemma OutdatedFacts(rq: Request, lay: Layout, q: Query)
    requires Outdated(rq, lay, q) && RequestOk(rq)
    ensures QueryFor(lay.rows, q) && rq.rows == lay.rows && rq.disk < |lay.rows| == |lay.files|
    ensures |lay.files[rq.disk]| == |lay.rows[rq.disk]| == |rq.wanted| == |Written(rq)|
  {
    hide LayoutOk, RequestOk, OnlyAlteredDiffer, QueryFor, Stored, Parity, XorWindow, StreamsNow;
    LayoutSize(lay);
    LayoutDisk(lay, rq.disk);
    RowCount(lay.rows[rq.disk], lay.files[rq.disk]);
    RequestFacts(rq);
  }

  // ---------------------------------------------------------------- an input

  /** Two disks with a file of one byte each. */
  function TwoBytes(): Layout { Layout([[Row(1, 1, 0)], [Row(1, 1, 0)]], [[[10]], [[20]]], 1) }

  /** The second disk's file is altered and belongs to user 7; user 5 asks. */
  function Asking(): Query { Query([[false], [true]], [[5], [7]], 5, 0) }

  lemma TwoBytesOk()
    ensures LayoutOk(TwoBytes())
  {
    var lay := TwoBytes();
    assert lay.rows[0] == lay.rows[1] && End(lay.rows[0], 1) == 1;
    forall i {:trigger lay.rows[i]} {:trigger lay.files[i]} | 0 <= i < |lay.rows|
      ensures RowsOk(lay.rows[i]) && Jobs.SizesMatch(lay.rows[i], lay.files[i])
      ensures End(lay.rows[i], |lay.rows[i]|) <= lay.sliceSize
    {
      assert i == 0 || i == 1;
    }
  }

  lemma NotListed()
    ensures QueryFor(TwoBytes().rows, Asking()) && !Listed(TwoBytes().rows, Asking(), 0, 0)
    ensures OverlookedShares(TwoBytes().rows, Asking(), 0, 0)
  {
    var q := Asking();
    assert q.altered[1][0] && !Reported(q, 1, 0);
  }

  /** An input: user 5 is not told that the first file cannot be restored. */
  lemma OtherOwner()
    ensures var lay, q := TwoBytes(), Asking();
      && LayoutOk(lay) && QueryFor(lay.rows, q) && !Listed(lay.rows, q, 0, 0) && OverlookedShares(lay.rows, q, 0, 0)
      && var rq := AfterSpoiling(lay, [], 0, [true], 1, 0, 0);
         Outdated(rq, lay, q) && RequestOk(rq) && Written(rq)[0] != lay.files[0][0]
  {
    hide Written, RequestOk, Spoiled, Parity, Stored, Outdated, LayoutOk, Listed, OverlookedShares, QueryFor;
    TwoBytesOk();
    NotListed();
    OverlookedSpoils(TwoBytes(), [], 0, [true], 0, Asking(), 1, 0, 0);
  }
}

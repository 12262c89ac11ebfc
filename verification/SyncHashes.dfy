/** From a sync to the hashes that the header writer looks up: they are the XXH64 hashes of the files. */
module SyncHashes {
  import opened Bytes
  import opened Options
  import opened Streams
  import opened Hashing
  import opened Jobs
  import opened Archive
  import opened HashRecord
  import Xxh64

  /** The array after a sync: the entries, and behind them whatever the unused places hold. */
  method HashArray(record: seq<HashPos>, unused: seq<HashPos>) returns (a: array<HashPos>)
    ensures a[..] == record + unused
  {
    var all := record + unused;
    a := new HashPos[|all|](i requires 0 <= i < |all| => all[i]);
  }

  lemma RowExists(lay: Layout, i: nat, j: nat)
    requires LayoutOk(lay) && i < |lay.rows| && j < |lay.rows[i]|
    ensures i < |lay.files| && |lay.files[i]| == |lay.rows[i]| && KeysAscend(lay.rows[i])
  {
    LayoutDisk(lay, i);
  }

  /** The same for any incremental hash that agrees with its one-shot form. */
  method SyncThenFind(lay: Layout, header: seq<byte>, bufSize: nat, unused: seq<HashPos>, i: nat, j: nat, hash: Hash)
    returns (found: Option<bv64>)
    requires LayoutOk(lay) && bufSize > 0 && i < |lay.rows| && j < |lay.rows[i]| && HashOk(hash)
    ensures i < |lay.files| && j < |lay.files[i]|
    ensures lay.rows[i][j].fsize > 0 ==> found == Some(hash.oneShot(lay.files[i][j]))
  {
    hide LayoutOk, HashOk, Lookup, Record, OfDisk, KeysAscend, Parity, Entries;
    RowExists(lay, i, j);
    var _, record := Sync(lay, header, bufSize, hash);
    var a := HashArray(record, unused);
    found := FindHash4Seq(a, a.Length, i, lay.rows[i][j].dseq);
    assert a[..a.Length] == record + unused;
    if lay.rows[i][j].fsize > 0 {
      FindsContentHash(record, unused, lay.rows[i], lay.files[i], i, hash, j);
    }
  }

  /**
   * End to end: after a sync of any slice, with any buffer size and schedule, looking up a file that is not
   * empty finds the one-shot XXH64 of its bytes.
   */
  method SyncThenFindHash(lay: Layout, header: seq<byte>, bufSize: nat, unused: seq<HashPos>, i: nat, j: nat)
    returns (found: Option<bv64>)
    requires LayoutOk(lay) && bufSize > 0 && i < |lay.rows| && j < |lay.rows[i]|
    ensures i < |lay.files| && j < |lay.files[i]|
    ensures lay.rows[i][j].fsize > 0 ==> found == Some(Xxh64.Hash(lay.files[i][j], 0))
  {
    hide *;
    FileHashOk();
    found := SyncThenFind(lay, header, bufSize, unused, i, j, FileHash());
    FileHashOneShot(lay.files[i][j]);
  }

  lemma FileHashOneShot(data: seq<byte>)
    ensures FileHash().oneShot(data) == Xxh64.Hash(data, 0)
  {
    hide Xxh64.Hash;
  }

  /** The lookups that the header writer makes for the files of one disk, one after the other. */
  method SyncThenFindAll(lay: Layout, header: seq<byte>, bufSize: nat, unused: seq<HashPos>, i: nat, hash: Hash)
    returns (found: seq<Option<bv64>>)
    requires LayoutOk(lay) && bufSize > 0 && i < |lay.rows| && HashOk(hash)
    ensures i < |lay.files| && |found| == |lay.rows[i]| == |lay.files[i]|
    ensures forall j {:trigger found[j]} :: 0 <= j < |found| && lay.rows[i][j].fsize > 0 ==>
      found[j] == Some(hash.oneShot(lay.files[i][j]))
  {
    hide LayoutOk, HashOk, Lookup, Record, OfDisk, KeysAscend, Parity, Entries;
    DiskExists(lay, i);
    var _, record := Sync(lay, header, bufSize, hash);
    var a := HashArray(record, unused);
    found := [];
    for j := 0 to |lay.rows[i]|
      invariant a[..a.Length] == record + unused && |found| == j
      invariant forall k {:trigger found[k]} :: 0 <= k < j && lay.rows[i][k].fsize > 0 ==>
        found[k] == Some(hash.oneShot(lay.files[i][k]))
    {
      var f := FindHash4Seq(a, a.Length, i, lay.rows[i][j].dseq);
      if lay.rows[i][j].fsize > 0 {
        FindsContentHash(record, unused, lay.rows[i], lay.files[i], i, hash, j);
      }
      found := found + [f];
    }
  }

  lemma DiskExists(lay: Layout, i: nat)
    requires LayoutOk(lay) && i < |lay.rows|
    ensures i < |lay.files| && |lay.files[i]| == |lay.rows[i]| && KeysAscend(lay.rows[i])
  {
    LayoutDisk(lay, i);
  }

  /** With the program's own hash. */
  method SyncThenFindHashes(lay: Layout, header: seq<byte>, bufSize: nat, unused: seq<HashPos>, i: nat)
    returns (found: seq<Option<bv64>>)
    requires LayoutOk(lay) && bufSize > 0 && i < |lay.rows|
    ensures i < |lay.files| && |found| == |lay.rows[i]| == |lay.files[i]|
    ensures forall j {:trigger found[j]} :: 0 <= j < |found| && lay.rows[i][j].fsize > 0 ==>
      found[j] == Some(Xxh64.Hash(lay.files[i][j], 0))
  {
    hide *;
    FileHashOk();
    found := SyncThenFindAll(lay, header, bufSize, unused, i, FileHash());
    forall j {:trigger found[j]} | 0 <= j < |found| && lay.rows[i][j].fsize > 0
      ensures found[j] == Some(Xxh64.Hash(lay.files[i][j], 0))
    {
      FileHashOneShot(lay.files[i][j]);
    }
  }
}

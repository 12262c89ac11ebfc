/** Looking up a file's content hash in the record that a sync leaves behind. */
module HashRecord {
  import opened Bytes
  import opened Streams
  import opened Hashing
  import opened Jobs
  import opened Options

  predicate Keyed(e: HashPos, disk: nat, dseq: nat) { e.dseq == dseq && e.disk == disk }

  /** The hash in the first entry with a key. */
  function Lookup(h: seq<HashPos>, disk: nat, dseq: nat): Option<bv64>
    decreases |h|
  {
    if |h| == 0 then None
    else
      var before, last := Lookup(h[..|h| - 1], disk, dseq), h[|h| - 1];
      if before.None? && Keyed(last, disk, dseq) then Some(last.hash) else before
  }

  /** How many entries have a key. */
  function Entries(h: seq<HashPos>, disk: nat, dseq: nat): nat
    decreases |h|
  {
    if |h| == 0 then 0
    else Entries(h[..|h| - 1], disk, dseq) + if Keyed(h[|h| - 1], disk, dseq) then 1 else 0
  }

  /** Scans the first filesCount places of the array, filled or not, for a key. */
  method FindHash4Seq(hashArray: array<HashPos>, filesCount: nat, disk: nat, dseq: nat) returns (found: Option<bv64>)
    requires filesCount <= hashArray.Length
    ensures found == Lookup(hashArray[..filesCount], disk, dseq)
  {
    found := None;
    for i := 0 to filesCount
      invariant Lookup(hashArray[..i], disk, dseq) == None
    {
      assert hashArray[..i + 1][..i] == hashArray[..i];
      if hashArray[i].dseq == dseq && hashArray[i].disk == disk {
        LookupStable(hashArray[..filesCount], i + 1, disk, dseq);
        assert hashArray[..filesCount][..i + 1] == hashArray[..i + 1];
        return Some(hashArray[i].hash);
      }
    }
  }

  /** What is found in a prefix is what is found in the whole. */
  lemma {:induction false} LookupStable(h: seq<HashPos>, n: nat, disk: nat, dseq: nat)
    requires n <= |h| && Lookup(h[..n], disk, dseq).Some?
    ensures Lookup(h, disk, dseq) == Lookup(h[..n], disk, dseq)
    decreases |h|
  {
    if n < |h| {
      assert h[..|h| - 1][..n] == h[..n];
      LookupStable(h[..|h| - 1], n, disk, dseq);
    } else {
      assert h[..n] == h;
    }
  }

  lemma WithLast(h: seq<HashPos>, e: HashPos, disk: nat, dseq: nat)
    ensures Lookup(h + [e], disk, dseq)
      == if Lookup(h, disk, dseq).None? && Keyed(e, disk, dseq) then Some(e.hash) else Lookup(h, disk, dseq)
    ensures Entries(h + [e], disk, dseq) == Entries(h, disk, dseq) + if Keyed(e, disk, dseq) then 1 else 0
  {
    assert (h + [e])[..|h|] == h;
  }

  /** Entries of other disks do not matter. */
  lemma {:induction false} OneDiskOnly(h: seq<HashPos>, disk: nat, dseq: nat)
    ensures Lookup(h, disk, dseq) == Lookup(OfDisk(h, disk), disk, dseq)
    ensures Entries(h, disk, dseq) == Entries(OfDisk(h, disk), disk, dseq)
    decreases |h|
  {
    if |h| > 0 {
      var before, last := h[..|h| - 1], h[|h| - 1];
      OneDiskOnly(before, disk, dseq);
      if last.disk == disk {
        WithLast(OfDisk(before, disk), last, disk, dseq);
      } else {
        assert OfDisk(h, disk) == OfDisk(before, disk);
      }
    }
  }

  /** What row m - 1 adds to the record. */
  lemma RecordStep(rows: seq<Row>, files: seq<seq<byte>>, disk: nat, hash: Hash, m: nat, dseq: nat)
    requires 0 < m <= |rows| && m <= |files|
    ensures var now, before := Record(rows, files, disk, hash, m), Record(rows, files, disk, hash, m - 1);
      var adds := rows[m - 1].fsize > 0 && rows[m - 1].dseq == dseq;
      && Entries(now, disk, dseq) == Entries(before, disk, dseq) + (if adds then 1 else 0)
      && Lookup(now, disk, dseq)
         == if Lookup(before, disk, dseq).None? && adds then Some(hash.oneShot(files[m - 1]))
           else Lookup(before, disk, dseq)
  {
    var before := Record(rows, files, disk, hash, m - 1);
    if rows[m - 1].fsize > 0 {
      WithLast(before, HashPos(rows[m - 1].dseq, disk, hash.oneShot(files[m - 1])), disk, dseq);
    } else {
      assert Record(rows, files, disk, hash, m) == before;
    }
  }

  /** Keys outside the first m rows are not in their record. */
  lemma {:induction false} NotRecorded(rows: seq<Row>, files: seq<seq<byte>>, disk: nat, hash: Hash, m: nat, dseq: nat)
    requires m <= |rows| && m <= |files|
    requires forall j :: 0 <= j < m && rows[j].fsize > 0 ==> rows[j].dseq != dseq
    ensures Lookup(Record(rows, files, disk, hash, m), disk, dseq) == None
    ensures Entries(Record(rows, files, disk, hash, m), disk, dseq) == 0
  {
    if m > 0 {
      NotRecorded(rows, files, disk, hash, m - 1, dseq);
      RecordStep(rows, files, disk, hash, m, dseq);
    }
  }

  /** A non-empty file among the first m has exactly one entry, with its hash. */
  lemma {:induction false} RecordedOnce(rows: seq<Row>, files: seq<seq<byte>>, disk: nat, hash: Hash, m: nat, j: nat)
    requires KeysAscend(rows) && j < m <= |rows| && m <= |files| && rows[j].fsize > 0
    ensures Lookup(Record(rows, files, disk, hash, m), disk, rows[j].dseq) == Some(hash.oneShot(files[j]))
    ensures Entries(Record(rows, files, disk, hash, m), disk, rows[j].dseq) == 1
  {
    hide Record, Lookup, Entries;
    if j == m - 1 {
      NotRecorded(rows, files, disk, hash, j, rows[j].dseq);
    } else {
      RecordedOnce(rows, files, disk, hash, m - 1, j);
      assert rows[m - 1].dseq != rows[j].dseq;
    }
    hide KeysAscend;
    RecordStep(rows, files, disk, hash, m, rows[j].dseq);
  }

  /**
   * After a sync every non-empty file has exactly one entry and the lookup finds the hash of its bytes,
   * whatever is left in the unused rest of the array.
   */
  lemma FindsContentHash(record: seq<HashPos>, rest: seq<HashPos>, rows: seq<Row>, files: seq<seq<byte>>, disk: nat,
                         hash: Hash, j: nat)
    requires KeysAscend(rows) && |files| == |rows| && j < |rows| && rows[j].fsize > 0
    requires OfDisk(record, disk) == Record(rows, files, disk, hash, |rows|)
    ensures Entries(record, disk, rows[j].dseq) == 1
    ensures Lookup(record + rest, disk, rows[j].dseq) == Some(hash.oneShot(files[j]))
  {
    hide Record, Lookup, Entries, OfDisk;
    OneDiskOnly(record, disk, rows[j].dseq);
    RecordedOnce(rows, files, disk, hash, |rows|, j);
    assert (record + rest)[..|record|] == record;
    LookupStable(record + rest, |record|, disk, rows[j].dseq);
  }

  /** An empty file has no entry, so what is found for it is exactly what the unused rest happens to hold. */
  lemma EmptyFileFindsRest(record: seq<HashPos>, rest: seq<HashPos>, rows: seq<Row>, files: seq<seq<byte>>, disk: nat,
                           hash: Hash, j: nat)
    requires KeysAscend(rows) && |files| == |rows| && j < |rows| && rows[j].fsize == 0
    requires OfDisk(record, disk) == Record(rows, files, disk, hash, |rows|)
    ensures Lookup(record + rest, disk, rows[j].dseq) == Lookup(rest, disk, rows[j].dseq)
  {
    hide Record, Lookup, Entries, OfDisk;
    OneDiskOnly(record, disk, rows[j].dseq);
    NotRecorded(rows, files, disk, hash, |rows|, rows[j].dseq);
    LookupBehind(record, rest, disk, rows[j].dseq);
  }

  lemma {:induction false} LookupBehind(a: seq<HashPos>, b: seq<HashPos>, disk: nat, dseq: nat)
    requires Lookup(a, disk, dseq) == None
    ensures Lookup(a + b, disk, dseq) == Lookup(b, disk, dseq)
    decreases |b|
  {
    if |b| == 0 {
      assert a + b == a;
    } else {
      LookupBehind(a, b[..|b| - 1], disk, dseq);
      assert (a + b)[..|a + b| - 1] == a + b[..|b| - 1];
    }
  }
}

/**
 * The planner's two tables: the file list with its assigned flags, and the slice rows. Ranges of keys
 * stand for lists of files, inserting rows lays them end to end, and nothing is lost or doubled.
 */
module PlanTables {
  import opened Bytes
  import opened Streams
  import opened PlanRules

  predicate Selected(files: seq<File>, taken: seq<bool>, from: nat, to: nat, k: nat)
    requires k < |files| == |taken|
  {
    !taken[k] && from <= files[k].key <= to
  }

  /** The unassigned ones of the first n files with a key in [from, to], in list order. */
  function InRange(files: seq<File>, taken: seq<bool>, from: nat, to: nat, n: nat): (r: seq<nat>)
    requires n <= |files| == |taken|
    ensures |r| <= n
  {
    if n == 0 then []
    else InRange(files, taken, from, to, n - 1) + if Selected(files, taken, from, to, n - 1) then [n - 1] else []
  }

  lemma {:induction false} InRangeOk(files: seq<File>, taken: seq<bool>, from: nat, to: nat, n: nat)
    requires n <= |files| == |taken|
    ensures var r := InRange(files, taken, from, to, n);
      && Increasing(r) && (forall a {:trigger r[a]} :: 0 <= a < |r| ==> r[a] < n)
      && (forall k: nat :: k in r <==> k < n && Selected(files, taken, from, to, k))
  {
    if n > 0 {
      InRangeOk(files, taken, from, to, n - 1);
      var before, r := InRange(files, taken, from, to, n - 1), InRange(files, taken, from, to, n);
      forall k: nat
        ensures k in r <==> k < n && Selected(files, taken, from, to, k)
      {
        assert k in r <==> k in before || (k == n - 1 && Selected(files, taken, from, to, n - 1));
      }
    }
  }

  /**
   * The range from the first to the last file of a pass selects exactly the files the pass counted, so
   * the planner's check of counts and sums cannot fail.
   */
  lemma RangeIsPass(files: seq<File>, taken: seq<bool>, bound: nat, picks: seq<nat>)
    requires ListOk(files) && |files| == |taken| && PicksOk(files, taken, bound, 0, picks) && |picks| > 0
    ensures InRange(files, taken, files[picks[0]].key, files[picks[|picks| - 1]].key, |files|) == picks
  {
    var first, last := picks[0], picks[|picks| - 1];
    var from, to := files[first].key, files[last].key;
    var r := InRange(files, taken, from, to, |files|);
    InRangeOk(files, taken, from, to, |files|);
    assert Fits(files, taken, bound, first);
    forall k: nat
      ensures k in r <==> k in picks
    {
      if k < |files| && Selected(files, taken, from, to, k) {
        assert first <= k <= last;
        assert Fits(files, taken, bound, k);
      }
      if k in picks {
        var a :| 0 <= a < |picks| && picks[a] == k;
        assert Fits(files, taken, bound, k);
      }
    }
    SameElements(r, picks);
  }

  /** UPDATE: every file with a key in [from, to] becomes assigned. */
  function MarkRange(files: seq<File>, taken: seq<bool>, from: nat, to: nat): (r: seq<bool>)
    requires |files| == |taken|
    ensures |r| == |taken|
  {
    seq(|taken|, j requires 0 <= j < |taken| => taken[j] || from <= files[j].key <= to)
  }

  /** Marking up to the last inserted key marks the inserted files and no others. */
  lemma MarkRangeIsMark(files: seq<File>, taken: seq<bool>, from: nat, to: nat, m: nat)
    requires ListOk(files) && |files| == |taken|
    requires var r := InRange(files, taken, from, to, |files|);
      0 < m <= |r| && r[m - 1] < |files|
    ensures var r := InRange(files, taken, from, to, |files|);
      MarkRange(files, taken, from, files[r[m - 1]].key) == Mark(taken, r[..m])
  {
    var r := InRange(files, taken, from, to, |files|);
    InRangeOk(files, taken, from, to, |files|);
    var last := r[m - 1];
    assert last in r;
    forall j: nat | j < |files|
      ensures (taken[j] || from <= files[j].key <= files[last].key) == (taken[j] || j in r[..m])
    {
      if !taken[j] && from <= files[j].key <= files[last].key {
        assert j <= last && j in r;
        var a :| 0 <= a < |r| && r[a] == j;
        assert a < m;
        assert r[..m][a] == j;
      }
      if !taken[j] && j in r[..m] {
        var a :| 0 <= a < m && r[a] == j;
        assert j in r && j <= last;
      }
    }
  }

  // ---------------------------------------------------------------- rows

  /** A new row starts where the rows so far end. */
  function AddRow(rows: seq<Row>, f: File): seq<Row> { rows + [Row(f.key, f.size, End(rows, |rows|))] }

  function AddRows(rows: seq<Row>, files: seq<File>, picks: seq<nat>): seq<Row>
    requires Within(files, picks)
    decreases |picks|
  {
    if |picks| == 0 then rows else AddRows(AddRow(rows, files[picks[0]]), files, Rest(files, picks))
  }

  lemma {:induction false} EndPrefix(a: seq<Row>, b: seq<Row>, n: nat)
    requires n <= |a| <= |b| && b[..|a|] == a
    ensures End(a, n) == End(b, n)
  {
    if n > 0 {
      EndPrefix(a, b, n - 1);
      assert a[n - 1] == b[..|a|][n - 1];
    }
  }

  lemma AddRowTiles(rows: seq<Row>, f: File)
    requires Contiguous(rows)
    ensures Contiguous(AddRow(rows, f))
    ensures End(AddRow(rows, f), |rows| + 1) == End(rows, |rows|) + f.size
  {
    var next := AddRow(rows, f);
    forall j {:trigger next[j].start} | 0 <= j < |next|
      ensures next[j].start == End(next, j)
    {
      EndPrefix(rows, next, j);
      if j < |rows| {
        assert next[j] == rows[j];
      }
    }
    EndPrefix(rows, next, |rows|);
  }

  /** Inserted rows keep tiling the disk's part of the slice. */
  lemma {:induction false} AddRowsTile(rows: seq<Row>, files: seq<File>, picks: seq<nat>)
    requires Contiguous(rows) && Within(files, picks)
    ensures var r := AddRows(rows, files, picks);
      && Contiguous(r) && |r| == |rows| + |picks|
      && End(r, |r|) == End(rows, |rows|) + Total(files, picks)
    decreases |picks|
  {
    if |picks| > 0 {
      AddRowTiles(rows, files[picks[0]]);
      AddRowsTile(AddRow(rows, files[picks[0]]), files, Rest(files, picks));
    }
  }

  lemma {:induction false} AddRowsJoin(rows: seq<Row>, files: seq<File>, a: seq<nat>, b: seq<nat>)
    requires Within(files, a) && Within(files, b)
    ensures Within(files, a + b)
    ensures AddRows(rows, files, a + b) == AddRows(AddRows(rows, files, a), files, b)
    decreases |a|
  {
    TotalJoin(files, a, b);
    if |a| == 0 {
      assert a + b == b;
    } else {
      assert (a + b)[1..] == a[1..] + b && (a + b)[0] == a[0];
      AddRowsJoin(AddRow(rows, files[a[0]]), files, a[1..], b);
    }
  }

  // ---------------------------------------------------------------- conservation

  /** The files that rows stand for. */
  function RowBag(rows: seq<Row>): multiset<File>
    decreases |rows|
  {
    if |rows| == 0 then multiset{}
    else RowBag(rows[..|rows| - 1]) + multiset{File(rows[|rows| - 1].dseq, rows[|rows| - 1].fsize)}
  }

  /** The assigned ones of the first n files. */
  function TakenBag(files: seq<File>, taken: seq<bool>, n: nat): multiset<File>
    requires n <= |files| == |taken|
  {
    if n == 0 then multiset{}
    else TakenBag(files, taken, n - 1) + if taken[n - 1] then multiset{files[n - 1]} else multiset{}
  }

  function FreeBytes(files: seq<File>, taken: seq<bool>, n: nat): nat
    requires n <= |files| == |taken|
  {
    if n == 0 then 0 else FreeBytes(files, taken, n - 1) + if taken[n - 1] then 0 else files[n - 1].size
  }

  function FreeCount(taken: seq<bool>, n: nat): nat
    requires n <= |taken|
  {
    if n == 0 then 0 else FreeCount(taken, n - 1) + if taken[n - 1] then 0 else 1
  }

  /** The unassigned ones of the first n files, in list order. */
  function FreeList(taken: seq<bool>, n: nat): (r: seq<nat>)
    requires n <= |taken|
  {
    if n == 0 then [] else FreeList(taken, n - 1) + if taken[n - 1] then [] else [n - 1]
  }

  lemma {:induction false} FreeListOk(taken: seq<bool>, n: nat)
    requires n <= |taken|
    ensures var r := FreeList(taken, n);
      && |r| == FreeCount(taken, n) && Increasing(r)
      && (forall a {:trigger r[a]} :: 0 <= a < |r| ==> r[a] < n && !taken[r[a]])
  {
    if n > 0 {
      FreeListOk(taken, n - 1);
    }
  }

  lemma {:induction false} TakeOneBag(files: seq<File>, taken: seq<bool>, j: nat, n: nat)
    requires n <= |files| == |taken| && j < |files| && !taken[j]
    ensures TakenBag(files, taken[j := true], n)
      == TakenBag(files, taken, n) + if j < n then multiset{files[j]} else multiset{}
  {
    if n > 0 {
      TakeOneBag(files, taken, j, n - 1);
    }
  }

  lemma {:induction false} TakeOneFree(files: seq<File>, taken: seq<bool>, j: nat, n: nat)
    requires n <= |files| == |taken| && j < |files| && !taken[j]
    ensures FreeBytes(files, taken, n) == FreeBytes(files, taken[j := true], n) + if j < n then files[j].size else 0
    ensures FreeCount(taken, n) == FreeCount(taken[j := true], n) + if j < n then 1 else 0
  {
    if n > 0 {
      TakeOneFree(files, taken, j, n - 1);
    }
  }

  /** Distinct unassigned files. */
  ghost predicate FreePicks(files: seq<File>, taken: seq<bool>, picks: seq<nat>)
    requires |files| == |taken|
  {
    Within(files, picks) && Increasing(picks) && forall a {:trigger picks[a]} :: 0 <= a < |picks| ==> !taken[picks[a]]
  }

  lemma MarkFirst(files: seq<File>, taken: seq<bool>, picks: seq<nat>)
    requires |files| == |taken| && FreePicks(files, taken, picks) && |picks| > 0
    ensures Mark(taken, picks) == Mark(taken[picks[0] := true], picks[1..])
    ensures FreePicks(files, taken[picks[0] := true], picks[1..])
  {
    assert picks == [picks[0]] + picks[1..];
  }

  lemma RowBagAdd(rows: seq<Row>, f: File)
    ensures RowBag(AddRow(rows, f)) == RowBag(rows) + multiset{f}
  {
    assert AddRow(rows, f)[..|rows|] == rows;
  }

  /**
   * Conservation: inserting files and marking them moves exactly them from the unassigned ones to the
   * rows, each once.
   */
  lemma {:induction false} Moved(files: seq<File>, taken: seq<bool>, rows: seq<Row>, picks: seq<nat>)
    requires |files| == |taken| && FreePicks(files, taken, picks)
    ensures TakenBag(files, Mark(taken, picks), |files|) + RowBag(rows)
      == TakenBag(files, taken, |files|) + RowBag(AddRows(rows, files, picks))
    decreases |picks|
  {
    hide FreePicks, Mark, TakenBag, RowBag;
    if |picks| == 0 {
      assert Mark(taken, picks) == taken by { MarkNothing(taken, picks); }
    } else {
      MarkFirst(files, taken, picks);
      PickWithin(files, taken, picks);
      var j := picks[0];
      TakeOneBag(files, taken, j, |files|);
      RowBagAdd(rows, files[j]);
      Moved(files, taken[j := true], AddRow(rows, files[j]), picks[1..]);
      CancelOne(TakenBag(files, Mark(taken, picks), |files|), RowBag(rows), TakenBag(files, taken, |files|),
                RowBag(AddRows(rows, files, picks)), files[j]);
    }
  }

  lemma CancelOne(a: multiset<File>, b: multiset<File>, c: multiset<File>, d: multiset<File>, f: File)
    requires a + (b + multiset{f}) == (c + multiset{f}) + d
    ensures a + b == c + d
  {
    forall x
      ensures (a + b)[x] == (c + d)[x]
    {
      assert (a + (b + multiset{f}))[x] == ((c + multiset{f}) + d)[x];
    }
  }

  lemma MarkNothing(taken: seq<bool>, picks: seq<nat>)
    requires |picks| == 0
    ensures Mark(taken, picks) == taken
  {
  }

  lemma PickWithin(files: seq<File>, taken: seq<bool>, picks: seq<nat>)
    requires |files| == |taken| && FreePicks(files, taken, picks) && |picks| > 0
    ensures Within(files, picks) && picks[0] < |files| && !taken[picks[0]]
  {
  }

  /** The unassigned files shrink by exactly the picked ones. */
  lemma {:induction false} FreeShrinks(files: seq<File>, taken: seq<bool>, picks: seq<nat>)
    requires |files| == |taken| && FreePicks(files, taken, picks)
    ensures FreeBytes(files, taken, |files|) == FreeBytes(files, Mark(taken, picks), |files|) + Total(files, picks)
    ensures FreeCount(taken, |taken|) == FreeCount(Mark(taken, picks), |taken|) + |picks|
    decreases |picks|
  {
    hide FreePicks, Mark, FreeBytes, FreeCount;
    if |picks| == 0 {
      MarkNothing(taken, picks);
    } else {
      MarkFirst(files, taken, picks);
      PickWithin(files, taken, picks);
      TakeOneFree(files, taken, picks[0], |files|);
      FreeShrinks(files, taken[picks[0] := true], picks[1..]);
    }
  }
}

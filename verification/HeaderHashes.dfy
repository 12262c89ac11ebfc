/** The hash column of a header: what is written there for each file, and that it is the hash of the file's bytes. */
module HeaderHashes {
  import opened Bytes
  import opened Options
  import opened Text
  import opened HeaderText
  import HeaderLoad
  import Jobs
  import Archive
  import Streams
  import SyncHashes
  import Xxh64

  const NO_HASH: string := "0000000000000000"

  /** What a reader finds in the third column of a file's line: the stored hash, sixteen zeros for an empty file. */
  lemma HashColumn(r: FileRow, disks: nat)
    requires HeaderLoad.RowOk(r, disks)
    ensures r.disk < 9
    ensures var tok := Tokens(FileLine(r, Write), 4, 0);
      |tok| == 4 && tok[2] == if r.fsize > 0 then r.hash else NO_HASH
  {
    RowDiskBelow(r, disks);
    hide HeaderLoad.RowOk, FileLine, Tokens, Decimal, Path;
    HeaderLoad.FileTokens(r, disks);
    assert HashOf(r) == if r.fsize > 0 then r.hash else NO_HASH;
  }

  lemma RowDiskBelow(r: FileRow, disks: nat)
    requires HeaderLoad.RowOk(r, disks)
    ensures r.disk < 9
  {
    hide FileLine, OneLine, IsWord;
  }

  /** The third columns of the next n lines. */
  function Hashes(text: string, n: nat): seq<string> {
    if n == 0 then []
    else
      var line := ReadLine(text);
      var tok := Tokens(Chomp(line), 4, 0);
      [if |tok| > 2 then tok[2] else ""] + Hashes(text[|line|..], n - 1)
  }

  /** The hashes that the rows from m on carry. */
  function Stored(rows: seq<FileRow>, m: nat): seq<string>
    requires m <= |rows|
    decreases |rows| - m
  {
    if m == |rows| then [] else [if rows[m].fsize > 0 then rows[m].hash else NO_HASH] + Stored(rows, m + 1)
  }

  lemma {:induction false} LinesHashes(h: Info, disks: nat, m: nat, rest: string)
    requires HeaderLoad.InfoOk(h, disks) && DisksOk(h) && m <= |h.rows|
    ensures Hashes(HeaderLoad.FileLines(h, m) + rest, |h.rows| - m) == Stored(h.rows, m)
    decreases |h.rows| - m
  {
    hide HeaderLoad.InfoOk, DisksOk, FileLine, HeaderLoad.RowOk, Tokens, ReadLine, OneLine, Chomp;
    if m < |h.rows| {
      HeaderLoad.InfoRow(h, disks, m);
      var r, more := h.rows[m], HeaderLoad.FileLines(h, m + 1);
      var line := FileLine(r, Write);
      HeaderLoad.FileIsLine(r, disks);
      ReadsLine(line, more + rest);
      Regroup(line + [NEWLINE], more, rest);
      HashColumn(r, disks);
      LinesHashes(h, disks, m + 1, rest);
    }
  }

  /** Over the whole written text: the lines behind the first one carry the stored hashes, file by file. */
  lemma WrittenHashes(h: Info, disks: nat, parity: string)
    requires HeaderLoad.InfoOk(h, disks) && DisksOk(h)
    ensures var text := SliceText(h, parity);
      |ReadLine(text)| <= |text| && Hashes(text[|ReadLine(text)|..], |h.rows|) == Stored(h.rows, 0)
  {
    hide HeaderLoad.InfoOk, DisksOk, FirstLine, EndLine, Tail, ReadLine, OneLine, Hashes, Stored, SliceText, Body,
      Header,
      HeaderLoad.FileLines, Chomp, Tokens, IsWord;
    HeaderLoad.InfoFacts(h, disks);
    HeaderLoad.FirstTokens(h);
    HeaderLoad.SliceSpelled(h, parity);
    var n := |Body(h, Write, |h.rows|)|;
    var rest := EndLine(h, Write, n) + (parity + Tail(h.sid));
    ReadsLine(FirstLine(h), HeaderLoad.FileLines(h, 0) + rest);
    LinesHashes(h, disks, 0, rest);
  }

  // ---------------------------------------------------------------- hexadecimal

  function HexDigit(d: nat): char
    requires d < 16
  {
    "0123456789abcdef"[d]
  }

  /** The last w hexadecimal digits of a number. */
  function Hex(n: nat, w: nat): (s: string)
    ensures |s| == w
  {
    if w == 0 then "" else Hex(n / 16, w - 1) + [HexDigit(n % 16)]
  }

  function HexDigitValue(c: char): nat {
    if '0' <= c <= '9' then c as nat - '0' as nat else if 'a' <= c <= 'f' then c as nat - 'a' as nat + 10 else 0
  }

  function HexValue(s: string): nat
    decreases |s|
  {
    if |s| == 0 then 0 else 16 * HexValue(s[..|s| - 1]) + HexDigitValue(s[|s| - 1])
  }

  function Power16(w: nat): nat { if w == 0 then 1 else 16 * Power16(w - 1) }

  /** Sixteen digits are enough for 64 bits: the written number is read back. */
  lemma {:induction false} HexRound(n: nat, w: nat)
    requires n < Power16(w)
    ensures HexValue(Hex(n, w)) == n && IsWordOrEmpty(Hex(n, w))
  {
    if w > 0 {
      HexRound(n / 16, w - 1);
      var s := Hex(n, w);
      assert s[..|s| - 1] == Hex(n / 16, w - 1);
      DigitRound(n % 16);
    }
  }

  predicate IsWordOrEmpty(s: string) { forall i :: 0 <= i < |s| ==> !IsBlank(s[i]) }

  lemma DigitRound(d: nat)
    requires d < 16
    ensures HexDigitValue(HexDigit(d)) == d && !IsBlank(HexDigit(d))
  {
    assert "0123456789abcdef"[d] == if d < 10 then ('0' as nat + d) as char else ('a' as nat + (d - 10)) as char;
  }

  /** How a hash is written. */
  function HashText(hash: bv64): string { Hex(hash as nat, HASH_SIZE_DIGITS) }

  /** The written hash is read back as the hash. */
  lemma HashTextRound(hash: bv64)
    ensures HexValue(HashText(hash)) == hash as nat && |HashText(hash)| == 16 && IsWord(HashText(hash))
  {
    hide Hex, HexValue;
    assert Power16(4) == 0x1_0000 && Power16(8) == 0x1_0000_0000 && Power16(12) == 0x1_0000_0000_0000;
    assert Power16(16) == 0x1_0000_0000_0000_0000;
    HexRound(hash as nat, HASH_SIZE_DIGITS);
  }

  /** What the header writer takes for the hash of a file: nothing if it was not found. */
  function HashTaken(found: Option<bv64>): string { if found.Some? then HashText(found.value) else "" }

  /**
   * From a sync to the header: the rows of one disk with their looked-up hashes. In the line written for a
   * file, the third column is the XXH64 of the file's bytes in hexadecimal, or zeros for an empty file.
   */
  method SyncThenHashColumn(lay: Archive.Layout, header: seq<byte>, bufSize: nat, unused: seq<Jobs.HashPos>, i: nat,
                            mtimes: seq<string>, rests: seq<string>) returns (rows: seq<FileRow>)
    requires Archive.LayoutOk(lay) && bufSize > 0 && i < |lay.rows|
    requires |mtimes| == |rests| == |lay.rows[i]|
    ensures i < |lay.files| && |rows| == |lay.rows[i]| == |lay.files[i]|
    ensures forall j {:trigger rows[j]} :: 0 <= j < |rows| && lay.rows[i][j].fsize > 0 ==>
      rows[j] == FileRow(i, lay.rows[i][j].fsize, mtimes[j], HashText(Xxh64.Hash(lay.files[i][j], 0)), rests[j])
    ensures forall j, disks: nat {:trigger HeaderLoad.RowOk(rows[j], disks)} ::
      0 <= j < |rows| && HeaderLoad.RowOk(rows[j], disks) ==>
        rows[j].disk < 9 && |Tokens(FileLine(rows[j], Write), 4, 0)| == 4
        && Tokens(FileLine(rows[j], Write), 4, 0)[2]
           == if lay.rows[i][j].fsize > 0 then HashText(Xxh64.Hash(lay.files[i][j], 0)) else NO_HASH
  {
    hide *;
    var found := SyncHashes.SyncThenFindHashes(lay, header, bufSize, unused, i);
    rows := [];
    for j := 0 to |found|
      invariant |rows| == j
      invariant forall k {:trigger rows[k]} :: 0 <= k < j ==>
        rows[k] == FileRow(i, lay.rows[i][k].fsize, mtimes[k], HashTaken(found[k]), rests[k])
    {
      rows := rows + [FileRow(i, lay.rows[i][j].fsize, mtimes[j], HashTaken(found[j]), rests[j])];
    }
    forall j {:trigger rows[j]} | 0 <= j < |rows| && lay.rows[i][j].fsize > 0
      ensures HashTaken(found[j]) == HashText(Xxh64.Hash(lay.files[i][j], 0))
    {
      TakenIs(Xxh64.Hash(lay.files[i][j], 0));
      assert found[j] == Some(Xxh64.Hash(lay.files[i][j], 0));
    }
    forall j, disks: nat {:trigger HeaderLoad.RowOk(rows[j], disks)} |
        0 <= j < |rows| && HeaderLoad.RowOk(rows[j], disks)
      ensures rows[j].disk < 9 && |Tokens(FileLine(rows[j], Write), 4, 0)| == 4
      ensures Tokens(FileLine(rows[j], Write), 4, 0)[2]
        == if lay.rows[i][j].fsize > 0 then HashText(Xxh64.Hash(lay.files[i][j], 0)) else NO_HASH
    {
      HashColumn(rows[j], disks);
      assert rows[j].fsize == lay.rows[i][j].fsize;
    }
  }

  lemma TakenIs(hash: bv64)
    ensures HashTaken(Some(hash)) == HashText(hash)
  {
    hide HashText;
  }
}

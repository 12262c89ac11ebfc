/** The text header of a slice file: what is written, in two passes of equal length, and in which pieces. */
module HeaderText {
  import opened Text

  const SLICE_ID_SIZE: nat := 28
  const TIMESTAMP_SIZE: nat := 20
  const HASH_SIZE_DIGITS: nat := 16
  const FILE_SIZE_DIGITS: nat := 16
  const HEADER_BUF_SIZE: nat := 32 * 1024

  /** A file of the slice: its path is the disk's name, a separator and `rest`. */
  datatype FileRow = FileRow(disk: nat, fsize: nat, mtime: string, hash: string, rest: string)

  /** What the header records, with rows in the order of disk and key. */
  datatype Info = Info(sid: string, fill: nat, rows: seq<FileRow>, sliceSize: nat, filesCount: nat)

  /** The first pass reserves space with placeholders, the second one writes the real values. */
  datatype Pass = Init | Write

  function DiskName(disk: nat): string
    requires disk < 9
  {
    ['D', DigitChar(disk + 1)]
  }

  function Path(r: FileRow): string
    requires r.disk < 9
  {
    DiskName(r.disk) + "/" + r.rest
  }

  function Repeated(c: char, n: nat): (s: string)
    ensures |s| == n
  {
    seq(n, _ => c)
  }

  /** "%*.*s": exactly w columns. */
  function Column(w: nat, s: string): (r: string)
    ensures |r| == w
  {
    Padded(w, if |s| > w then s[..w] else s)
  }

  /** A column: the text cut off on the right, or with blanks in front of it. */
  lemma ColumnMeans(w: nat, s: string)
    ensures |s| >= w ==> Column(w, s) == s[..w]
    ensures |s| < w ==> Column(w, s) == Padded(w, s)
    ensures var p := Padded(w, s);
      && p[|p| - |s|..] == s && forall i :: 0 <= i < |p| - |s| ==> p[i] == ' '
  {
    assert |s| >= w ==> Blanks(0) + s[..w] == s[..w];
  }

  function FirstLine(h: Info): string {
    "ParitySlice: " + Column(SLICE_ID_SIZE, h.sid) + "  fill: " + Padded(3, Decimal(h.fill))
  }

  /** The hash column: the stored hash, zeros for an empty file. */
  function HashOf(r: FileRow): string { if r.fsize > 0 then r.hash else Repeated('0', HASH_SIZE_DIGITS) }

  function FileLine(r: FileRow, pass: Pass): string
    requires r.disk < 9
  {
    var ts := if pass == Init then Repeated('T', TIMESTAMP_SIZE) else r.mtime;
    var hash := if pass == Init then Repeated('H', HASH_SIZE_DIGITS) else HashOf(r);
    Padded(FILE_SIZE_DIGITS, Decimal(r.fsize)) + " " + Column(TIMESTAMP_SIZE, ts) + " "
      + Padded(HASH_SIZE_DIGITS, hash) + " " + Path(r)
  }

  ghost predicate DisksOk(h: Info) {
    forall j {:trigger h.rows[j]} :: 0 <= j < |h.rows| ==> h.rows[j].disk < 9
  }

  /** The first line and the lines of the first m files. */
  function Body(h: Info, pass: Pass, m: nat): string
    requires DisksOk(h) && m <= |h.rows|
  {
    if m == 0 then FirstLine(h) + [NEWLINE] else Body(h, pass, m - 1) + FileLine(h.rows[m - 1], pass) + [NEWLINE]
  }

  function EohLine(h: Info, pass: Pass): string {
    var sid := if pass == Init then Repeated('S', SLICE_ID_SIZE) else h.sid;
    "EOH " + Padded(FILE_SIZE_DIGITS - 4, Decimal(h.sliceSize)) + " "
      + Padded(FILE_SIZE_DIGITS / 2, Decimal(h.filesCount)) + " "
    + Column(SLICE_ID_SIZE, sid)
  }

  /** Blanks that make n characters and a newline a multiple of eight. */
  function Filling(n: nat): (s: string)
    ensures (n + |s| + 1) % 8 == 0 && |s| < 8
  {
    Blanks(7 - n % 8)
  }

  function EndLine(h: Info, pass: Pass, n: nat): string {
    EohLine(h, pass) + Filling(n + |EohLine(h, pass)|) + [NEWLINE]
  }

  function Header(h: Info, pass: Pass): string
    requires DisksOk(h)
  {
    var body := Body(h, pass, |h.rows|);
    body + EndLine(h, pass, |body|)
  }

  // ---------------------------------------------------------------- two passes

  lemma {:induction false} BodySameLength(h: Info, m: nat)
    requires DisksOk(h) && m <= |h.rows| && forall j {:trigger h.rows[j]} :: 0 <= j < m ==>
      |HashOf(h.rows[j])| == HASH_SIZE_DIGITS
    ensures |Body(h, Init, m)| == |Body(h, Write, m)|
  {
    if m > 0 {
      BodySameLength(h, m - 1);
    }
  }

  /** Both passes write the same number of bytes, a multiple of eight: parity data begins where the rewrite ends. */
  lemma TwoPasses(h: Info)
    requires DisksOk(h) && forall j {:trigger h.rows[j]} :: 0 <= j < |h.rows| ==>
      |HashOf(h.rows[j])| == HASH_SIZE_DIGITS
    ensures |Header(h, Init)| == |Header(h, Write)| && |Header(h, Write)| % 8 == 0
  {
    hide Body, HashOf, FileLine, Padded, Decimal;
    BodySameLength(h, |h.rows|);
    assert |EohLine(h, Init)| == |EohLine(h, Write)|;
  }

  /** A file after text has been written over its beginning. */
  function Rewritten(file: string, text: string): string {
    text + if |text| <= |file| then file[|text|..] else []
  }

  /** Rewriting the header in place turns the reserved header into the final one and leaves the parity data alone. */
  lemma RewriteKeepsParity(h: Info, parity: string)
    requires DisksOk(h) && forall j {:trigger h.rows[j]} :: 0 <= j < |h.rows| ==>
      |HashOf(h.rows[j])| == HASH_SIZE_DIGITS
    ensures Rewritten(Header(h, Init) + parity, Header(h, Write)) == Header(h, Write) + parity
  {
    hide Header, HashOf;
    TwoPasses(h);
  }

  // ---------------------------------------------------------------- writing

  /** A file as it is found when the header is written for good. */
  datatype FileNow = FileNow(size: int, mtime: string)

  /** The file has changed since planning, or its hash is missing. */
  predicate Unusable(r: FileRow, now: FileNow) {
    now.size < 0 || now.size != r.fsize || now.mtime != r.mtime || (r.fsize > 0 && |r.hash| != HASH_SIZE_DIGITS)
  }

  datatype Outcome = Cancelled | Written(headerSize: nat)

  function Flat(pieces: seq<string>): string
    decreases |pieces|
  {
    if |pieces| == 0 then "" else Flat(pieces[..|pieces| - 1]) + pieces[|pieces| - 1]
  }

  lemma FlatAppend(pieces: seq<string>, p: string)
    ensures Flat(pieces + [p]) == Flat(pieces) + p
  {
    assert (pieces + [p])[..|pieces|] == pieces;
  }

  /** Each line with its newline, and the closing one with its filling, has at most 4096 characters. */
  ghost predicate ShortLines(h: Info, pass: Pass) {
    && |FirstLine(h)| < 4096 && |EohLine(h, pass)| + 8 <= 4096
    && forall j {:trigger h.rows[j]} ::
         0 <= j < |h.rows| ==> h.rows[j].disk < 9 && |FileLine(h.rows[j], pass)| < 4096
  }

  lemma ShortLine(h: Info, pass: Pass, m: nat)
    requires m < |h.rows| && h.rows[m].disk < 9
    ensures ShortLines(h, pass) ==> |FileLine(h.rows[m], pass)| < 4096
  {
    hide FileLine;
  }

  lemma ShortEnds(h: Info, pass: Pass, n: nat)
    ensures ShortLines(h, pass) ==> |FirstLine(h)| < 4096 && |EndLine(h, pass, n)| <= 4096
  {
    hide FirstLine, EohLine, FileLine;
  }

  /**
   * Writes the header through a buffer that is flushed when it runs full. The pieces written make up
   * the whole text; the second pass stops if a file has changed or has no hash. No line that is short enough
   * makes the buffer overflow.
   */
  method WriteHeader(h: Info, pass: Pass, now: seq<FileNow>) returns (r: Outcome, pieces: seq<string>)
    requires DisksOk(h) && |now| == |h.rows|
    ensures r == Cancelled <==> pass == Write && exists j {:trigger h.rows[j]} ::
      0 <= j < |h.rows|
      && (now[j].size != h.rows[j].fsize || now[j].mtime != h.rows[j].mtime
          || (h.rows[j].fsize > 0 && |h.rows[j].hash| != 16))
    ensures r.Written? ==> Flat(pieces) == Header(h, pass) && r.headerSize == |Header(h, pass)|
    ensures ShortLines(h, pass) ==> forall a :: 0 <= a < |pieces| ==> |pieces[a]| <= 32768
  {
    hide FileLine, FirstLine, EohLine, DisksOk, Filling, ShortLines, EndLine;
    ShortEnds(h, pass, 0);
    var buf := FirstLine(h) + [NEWLINE];
    var hs := |buf|;
    pieces := [];
    assert Flat(pieces) + buf == buf;
    for m := 0 to |h.rows|
      invariant Flat(pieces) + buf == Body(h, pass, m) && hs == |Body(h, pass, m)|
      invariant ShortLines(h, pass) ==> |buf| <= 28672 && forall a :: 0 <= a < |pieces| ==> |pieces[a]| <= 32768
      invariant pass == Write ==> forall j {:trigger h.rows[j]} :: 0 <= j < m ==> !Unusable(h.rows[j], now[j])
    {
      var row := h.rows[m];
      if pass == Write && Unusable(row, now[m]) {
        return Cancelled, pieces;
      }
      RowDisk(h, m);
      ShortLine(h, pass, m);
      var line := FileLine(row, pass) + [NEWLINE];
      assert Flat(pieces) + (buf + line) == (Flat(pieces) + buf) + FileLine(row, pass) + [NEWLINE];
      buf := buf + line;
      hs := hs + |line|;
      if |buf| > HEADER_BUF_SIZE - 4096 {
        FlatAppend(pieces, buf);
        pieces := pieces + [buf];
        buf := "";
        assert Flat(pieces) + buf == Flat(pieces);
      }
    }
    var end := EndLine(h, pass, hs);
    ShortEnds(h, pass, hs);
    assert Flat(pieces) + (buf + end) == (Flat(pieces) + buf) + end;
    FlatAppend(pieces, buf + end);
    pieces := pieces + [buf + end];
    r := Written(hs + |end|);
  }

  lemma RowDisk(h: Info, m: nat)
    requires DisksOk(h) && m < |h.rows|
    ensures h.rows[m].disk < 9
  {
  }

  function Tail(sid: string): string { "ParityTail: " + Padded(SLICE_ID_SIZE, sid) }

  /** A complete slice file. */
  function SliceText(h: Info, parity: string): string
    requires DisksOk(h)
  {
    Header(h, Write) + parity + Tail(h.sid)
  }
}

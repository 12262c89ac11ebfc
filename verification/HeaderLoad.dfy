/** Reading a slice file's header back, and that this recovers what was written. */
module HeaderLoad {
  import opened Text
  import opened HeaderText

  /** A row rebuilt from the header; its key counts the file lines, its start sums the sizes before it on its disk. */
  datatype LoadedRow = LoadedRow(disk: nat, dseq: nat, fsize: nat, start: nat, mtime: string, path: string)

  datatype Loaded = Rejected | Loaded(rows: seq<LoadedRow>, sliceSize: nat, files: nat, headerSize: nat, fill: nat)

  /** What the loop over file lines has gathered. */
  datatype Acc = Acc(rows: seq<LoadedRow>, dsize: seq<nat>, sliceSize: nat)

  datatype Line = Bad | Eoh(size: nat, files: nat) | Row(acc: Acc)

  /** The disk that a path names: the part before the first separator. */
  function DiskOf(path: string, disks: nat): (d: int)
    ensures -1 <= d < disks
  {
    if |path| >= 3 && path[0] == 'D' && IsDigit(path[1]) && path[2] == '/' && 1 <= DigitValue(path[1]) <= disks
    then DigitValue(path[1]) - 1 else -1
  }

  function TrimEnd(s: string): string
    decreases |s|
  {
    if |s| > 0 && IsBlank(s[|s| - 1]) then TrimEnd(s[..|s| - 1]) else s
  }

  /** What one line after the first means. */
  function Interpret(line: string, sid: string, disks: nat, acc: Acc): (r: Line)
    requires |acc.dsize| == disks
    ensures r.Row? ==> |r.acc.dsize| == disks
  {
    var tok := Tokens(Chomp(line), 4, 0);
    if |tok| < 4 then Bad
    else if tok[0] == "EOH" then (if TrimEnd(tok[3]) == sid then Eoh(Atol(tok[1]), Atol(tok[2])) else Bad)
    else
      var d := DiskOf(tok[3], disks);
      if d < 0 then Bad else Row(AddRow(acc, d, Atol(tok[0]), tok[1], tok[3]))
  }

  function AddRow(acc: Acc, d: nat, fsize: nat, mtime: string, path: string): (r: Acc)
    requires d < |acc.dsize|
    ensures |r.dsize| == |acc.dsize|
  {
    var row := LoadedRow(d, |acc.rows| + 1, fsize, acc.dsize[d], mtime, path);
    var sum := acc.dsize[d] + fsize;
    Acc(acc.rows + [row], acc.dsize[d := sum], if sum > acc.sliceSize then sum else acc.sliceSize)
  }

  /** The end of the file lines: what was gathered, the header's length so far and the two numbers of the last line. */
  datatype Lines = BadLines | Lines(acc: Acc, headerSize: nat, eohSize: nat, eohFiles: nat)

  function LoadLines(text: string, hs: nat, sid: string, disks: nat, acc: Acc): Lines
    requires |acc.dsize| == disks
    decreases |text|
  {
    var line := ReadLine(text);
    if |line| == 0 then Lines(acc, hs, 0, 0)
    else
      match Interpret(line, sid, disks, acc)
      case Bad => BadLines
      case Eoh(size, files) => Lines(acc, hs + |line|, size, files)
      case Row(next) => LoadLines(text[|line|..], hs + |line|, sid, disks, next)
  }

  predicate FirstOk(line: string, sid: string) {
    var tok := Tokens(Chomp(line), 0, 0);
    |line| > 0 && |tok| == 4 && tok[0] == "ParitySlice:" && tok[1] == sid && tok[2] == "fill:"
  }

  predicate TailOk(text: string, at: nat, sid: string) {
    at <= |text| &&
    var line := ReadLine(text[at..]);
    var tok := Tokens(Chomp(line), 0, 0);
    |line| >= 11 && line[..11] == "ParityTail:" && |tok| == 2 && tok[1] == sid
  }

  function Load(text: string, sid: string, disks: nat): Loaded {
    var first := ReadLine(text);
    if !FirstOk(first, sid) then Rejected
    else
      var fill := Atol(Tokens(Chomp(first), 0, 0)[3]);
      match LoadLines(text[|first|..], |first|, sid, disks, Acc([], seq(disks, _ => 0), 0))
      case BadLines => Rejected
      case Lines(acc, hs, eohSize, eohFiles) =>
        if |acc.rows| != eohFiles || acc.sliceSize != eohSize || !TailOk(text, acc.sliceSize + hs, sid) then Rejected
        else Loaded(acc.rows, acc.sliceSize, |acc.rows|, hs, fill)
  }

  /** The loader: line by line, with a counter of lines and a sum per disk. */
  method LoadSliceHeader(text: string, sid: string, disks: nat) returns (r: Loaded)
    ensures r == Load(text, sid, disks)
  {
    hide Tokens, ReadLine, Interpret, TailOk, Atol, Chomp;
    var first := ReadLine(text);
    if !FirstOk(first, sid) {
      return Rejected;
    }
    LineFacts(text);
    var tok := Split(Chomp(first), 0);
    var fill := Atol(tok[3]);
    var hs: nat, left, acc := |first|, text[|first|..], Acc([], seq(disks, _ => 0), 0);
    var eohSize: nat, eohFiles: nat, more := 0, 0, true;
    ghost var all := LoadLines(left, hs, sid, disks, acc);
    while more
      invariant |acc.dsize| == disks && (more ==> eohSize == eohFiles == 0)
      invariant if more then LoadLines(left, hs, sid, disks, acc) == all else all == Lines(acc, hs, eohSize, eohFiles)
      decreases more, |left|
    {
      LineFacts(left);
      var line := ReadLine(left);
      if |line| == 0 {
        more := false;
      } else {
        match Interpret(line, sid, disks, acc)
        case Bad =>
          return Rejected;
        case Eoh(size, files) =>
          hs, eohSize, eohFiles, more := hs + |line|, size, files, false;
        case Row(next) =>
          acc, hs, left := next, hs + |line|, left[|line|..];
      }
    }
    if |acc.rows| != eohFiles || acc.sliceSize != eohSize || !TailOk(text, acc.sliceSize + hs, sid) {
      return Rejected;
    }
    return Loaded(acc.rows, acc.sliceSize, |acc.rows|, hs, fill);
  }

  lemma LineFacts(text: string)
    ensures |ReadLine(text)| <= |text|
  {
  }

  // ---------------------------------------------------------------- what was written

  function SumBefore(rows: seq<FileRow>, m: nat, d: nat): nat
    requires m <= |rows|
  {
    if m == 0 then 0 else SumBefore(rows, m - 1, d) + if rows[m - 1].disk == d then rows[m - 1].fsize else 0
  }

  function MaxSum(rows: seq<FileRow>, m: nat): nat
    requires m <= |rows|
  {
    if m == 0 then 0
    else
      var sum := SumBefore(rows, m, rows[m - 1].disk);
      if sum > MaxSum(rows, m - 1) then sum else MaxSum(rows, m - 1)
  }

  /** The largest sum so far is the largest sum of any disk. */
  lemma {:induction false} MaxSumIsMax(rows: seq<FileRow>, m: nat, d: nat)
    requires m <= |rows|
    ensures SumBefore(rows, m, d) <= MaxSum(rows, m)
    ensures MaxSum(rows, m) == 0 || exists e :: 0 <= e && SumBefore(rows, m, e) == MaxSum(rows, m)
  {
    if m > 0 {
      MaxSumIsMax(rows, m - 1, d);
      var last := rows[m - 1];
      assert SumBefore(rows, m, last.disk) == SumBefore(rows, m - 1, last.disk) + last.fsize;
      if MaxSum(rows, m - 1) > 0 && MaxSum(rows, m) == MaxSum(rows, m - 1) {
        var e: nat :| SumBefore(rows, m - 1, e) == MaxSum(rows, m - 1);
        MaxSumIsMax(rows, m - 1, last.disk);
        assert SumBefore(rows, m, e) == MaxSum(rows, m);
      }
    }
  }

  predicate RowOk(r: FileRow, disks: nat) {
    && r.disk < disks <= 9 && OneLine(r.rest) && IsWord(r.mtime) && |r.mtime| == TIMESTAMP_SIZE
    && (r.fsize > 0 ==> IsWord(r.hash) && |r.hash| == HASH_SIZE_DIGITS)
    && |FileLine(r, Write)| + 1 < PATH_MAX
  }

  /** A header that describes its slice, with names free of newlines and lines that fit the line buffer. */
  ghost predicate InfoOk(h: Info, disks: nat) {
    && disks <= 9 && IsWord(h.sid) && |h.sid| == SLICE_ID_SIZE
    && (forall j {:trigger h.rows[j]} :: 0 <= j < |h.rows| ==> RowOk(h.rows[j], disks))
    && h.filesCount == |h.rows| && h.sliceSize == MaxSum(h.rows, |h.rows|)
    && |FirstLine(h)| + 1 < PATH_MAX && |EndLine(h, Write, |Body(h, Write, |h.rows|)|)| < PATH_MAX
  }

  /** The row that file m should be loaded as. */
  function Expected(rows: seq<FileRow>, m: nat): LoadedRow
    requires m < |rows| && rows[m].disk < 9
  {
    LoadedRow(rows[m].disk, m + 1, rows[m].fsize, SumBefore(rows, m, rows[m].disk), rows[m].mtime, Path(rows[m]))
  }

  // ---------------------------------------------------------------- tokens of each kind of line

  lemma WordFacts()
    ensures IsWord("ParitySlice:") && IsWord("fill:") && IsWord("EOH") && IsWord("ParityTail:")
    ensures OneLine("ParitySlice: ") && OneLine("  fill: ") && OneLine("EOH ") && OneLine(" ")
  {
  }

  lemma JoinLines(a: string, b: string)
    requires OneLine(a) && OneLine(b)
    ensures OneLine(a + b)
  {
  }

  lemma WordIsLine(w: string)
    requires IsWord(w)
    ensures OneLine(w)
  {
  }

  lemma BlanksAreLine(n: nat)
    ensures OneLine(Blanks(n))
  {
  }

  /** One token and the tokens of what follows it. */
  lemma TokenThen(k: nat, w: string, rest: string, limit: nat, n: nat)
    requires IsWord(w) && n <= TOKENS_MAX && !(limit > 0 && n > 0 && n >= limit - 1)
    ensures Tokens(Blanks(k) + w + " " + rest, limit, n) == [w] + Tokens(rest, limit, n + 1)
  {
    hide Strtok, Tokens;
    NextToken(k, w, ' ', rest);
    assert [] + Tokens(Blanks(k) + w + " " + rest, limit, n) == Tokens(Blanks(k) + w + " " + rest, limit, n);
    TokensFrom([], Blanks(k) + w + " " + rest, limit, n);
    assert [] + [w] == [w];
  }

  lemma NoBlanks(s: string)
    ensures Blanks(0) + s == s
  {
  }

  /** Three words and the rest of the line. */
  lemma FourTokens(k: nat, a: string, l: nat, b: string, m: nat, c: string, rest: string)
    requires IsWord(a) && IsWord(b) && IsWord(c) && |rest| > 0
    ensures Tokens(Blanks(k) + a + " " + (Blanks(l) + b + " " + (Blanks(m) + c + " " + rest)), 4, 0) == [a, b, c, rest]
  {
    hide Strtok, IsWord;
    TokenThen(k, a, Blanks(l) + b + " " + (Blanks(m) + c + " " + rest), 4, 0);
    TokenThen(l, b, Blanks(m) + c + " " + rest, 4, 1);
    TokenThen(m, c, rest, 4, 2);
    assert Tokens(rest, 4, 3) == [rest];
  }

  /** The tokens of a file line are its four fields; the path is kept whole, blanks and all. */
  lemma FileTokens(r: FileRow, disks: nat)
    requires RowOk(r, disks)
    ensures Tokens(FileLine(r, Write), 4, 0) == [Decimal(r.fsize), r.mtime, HashOf(r), Path(r)]
  {
    hide Tokens, IsWord, OneLine, Path, Decimal, HashOf;
    var size := Decimal(r.fsize);
    AtolRound(r.fsize);
    HashFacts(r, disks);
    NoBlanks(r.mtime);
    NoBlanks(HashOf(r));
    var k := if |size| < FILE_SIZE_DIGITS then FILE_SIZE_DIGITS - |size| else 0;
    FourTokens(k, size, 0, r.mtime, 0, HashOf(r), Path(r));
    FileColumns(r, disks, k);
  }

  lemma FileColumns(r: FileRow, disks: nat, k: nat)
    requires RowOk(r, disks)
    requires k == if |Decimal(r.fsize)| < FILE_SIZE_DIGITS then FILE_SIZE_DIGITS - |Decimal(r.fsize)| else 0
    ensures FileLine(r, Write)
      == Blanks(k) + Decimal(r.fsize) + " " + (Blanks(0) + r.mtime + " " + (Blanks(0) + HashOf(r) + " " + Path(r)))
  {
    hide IsWord, OneLine, Path, Decimal, HashOf;
    HashFacts(r, disks);
    var size, mtime, hash, path := Decimal(r.fsize), r.mtime, HashOf(r), Path(r);
    assert Column(TIMESTAMP_SIZE, mtime) == mtime;
    assert Padded(HASH_SIZE_DIGITS, hash) == hash;
    assert Padded(FILE_SIZE_DIGITS, size) == Blanks(k) + size;
    Nested(Blanks(k) + size, mtime, hash, path);
  }

  lemma Nested(a: string, b: string, c: string, d: string)
    ensures a + " " + b + " " + c + " " + d == a + " " + (Blanks(0) + b + " " + (Blanks(0) + c + " " + d))
  {
    assert Blanks(0) + b == b && Blanks(0) + c == c;
  }

  lemma HashFacts(r: FileRow, disks: nat)
    requires RowOk(r, disks)
    ensures IsWord(HashOf(r)) && |HashOf(r)| == HASH_SIZE_DIGITS && |Path(r)| > 0
  {
  }

  lemma ColumnIsLine(w: nat, s: string)
    requires OneLine(s)
    ensures OneLine(Padded(w, s)) && OneLine(Column(w, s))
  {
    var t := if |s| > w then s[..w] else s;
    BlanksAreLine(if |t| < w then w - |t| else 0);
    BlanksAreLine(if |s| < w then w - |s| else 0);
  }

  lemma FileIsLine(r: FileRow, disks: nat)
    requires RowOk(r, disks)
    ensures r.disk < 9 && OneLine(FileLine(r, Write)) && |FileLine(r, Write)| + 1 < PATH_MAX
  {
    HashFacts(r, disks);
    AtolRound(r.fsize);
    assert OneLine(Path(r));
    hide Path, Decimal, HashOf;
    WordIsLine(HashOf(r));
    WordIsLine(r.mtime);
    ColumnIsLine(FILE_SIZE_DIGITS, Decimal(r.fsize));
    ColumnIsLine(TIMESTAMP_SIZE, r.mtime);
    ColumnIsLine(HASH_SIZE_DIGITS, HashOf(r));
    hide Padded, Column, IsWord;
    var a := Padded(FILE_SIZE_DIGITS, Decimal(r.fsize)) + " ";
    var b := a + Column(TIMESTAMP_SIZE, r.mtime) + " ";
    assert FileLine(r, Write) == b + Padded(HASH_SIZE_DIGITS, HashOf(r)) + " " + Path(r);
  }

  lemma DiskOfPath(r: FileRow, disks: nat)
    requires RowOk(r, disks)
    ensures DiskOf(Path(r), disks) == r.disk
  {
    DigitRound(r.disk + 1);
    var p := Path(r);
    assert p[0] == 'D' && p[1] == DigitChar(r.disk + 1) && p[2] == '/';
  }

  lemma NumberIsNotEoh(n: nat)
    ensures Decimal(n) != "EOH"
  {
    DecimalDigits(n);
    var s := Decimal(n);
    assert IsDigit(s[0]);
  }

  /** A file line is read back as the row it was written for. */
  lemma InterpretsFile(r: FileRow, sid: string, disks: nat, acc: Acc)
    requires RowOk(r, disks) && |acc.dsize| == disks
    ensures Interpret(FileLine(r, Write) + [NEWLINE], sid, disks, acc)
      == Row(AddRow(acc, r.disk, r.fsize, r.mtime, Path(r)))
  {
    hide FileLine, Path, Decimal, Tokens, RowOk, AddRow, DiskOf, Atol, HashOf;
    FileIsLine(r, disks);
    FileTokens(r, disks);
    DiskOfPath(r, disks);
    NumberIsNotEoh(r.fsize);
    AtolRound(r.fsize);
    assert Chomp(FileLine(r, Write) + [NEWLINE]) == FileLine(r, Write);
  }

  lemma {:induction false} TrimsBlanks(w: string, n: nat)
    requires IsWord(w)
    ensures TrimEnd(w + Blanks(n)) == w
  {
    if n == 0 {
      assert w + Blanks(0) == w;
    } else {
      var s := w + Blanks(n);
      assert s[|s| - 1] == ' ' && s[..|s| - 1] == w + Blanks(n - 1);
      TrimsBlanks(w, n - 1);
    }
  }

  /** The closing line, spelled out. */
  ghost function EndWords(h: Info, n: nat): string {
    var size, files := Decimal(h.sliceSize), Decimal(h.filesCount);
    var k := if |size| < 12 then 12 - |size| else 0;
    var l := if |files| < 8 then 8 - |files| else 0;
    Blanks(0) + "EOH" + " " + (Blanks(k) + size + " "
      + (Blanks(l) + files + " " + (h.sid + Blanks(7 - (n + |EohLine(h, Write)|) % 8))))
  }

  /** Grouping from the left and from the right. */
  lemma Regroup4(a: string, b: string, c: string, d: string)
    ensures a + b + c + d == a + (b + (c + d))
  {
    Regroup(a + b, c, d);
    Regroup(a, b, c + d);
  }

  lemma EndSpelled(h: Info, n: nat)
    requires |h.sid| == SLICE_ID_SIZE
    ensures EndLine(h, Write, n) == EndWords(h, n) + [NEWLINE]
  {
    hide Decimal, Padded, Blanks;
    var size, files := Decimal(h.sliceSize), Decimal(h.filesCount);
    var k := if |size| < 12 then 12 - |size| else 0;
    var l := if |files| < 8 then 8 - |files| else 0;
    var m := 7 - (n + |EohLine(h, Write)|) % 8;
    var e, x, y := "EOH ", Blanks(k) + size + " ", Blanks(l) + files + " ";
    EohSpelled(h);
    hide EohLine;
    EndRegroup(e, x, y, h.sid, Blanks(m));
    FirstWord();
    assert EndWords(h, n) == e + (x + (y + (h.sid + Blanks(m))));
  }

  lemma FirstWord()
    ensures "EOH " == Blanks(0) + "EOH" + " "
  {
  }

  lemma EohSpelled(h: Info)
    requires |h.sid| == SLICE_ID_SIZE
    ensures var size, files := Decimal(h.sliceSize), Decimal(h.filesCount);
      var k, l := if |size| < 12 then 12 - |size| else 0, if |files| < 8 then 8 - |files| else 0;
      EohLine(h, Write) == "EOH " + (Blanks(k) + size + " ") + (Blanks(l) + files + " ") + h.sid
  {
    NoBlanks(h.sid);
    hide Decimal, Blanks;
    var size, files := Decimal(h.sliceSize), Decimal(h.filesCount);
    var x := Blanks(if |size| < 12 then 12 - |size| else 0) + size + " ";
    Regroup("EOH ", Padded(12, size), " ");
    Regroup("EOH " + x, Padded(8, files), " ");
  }

  lemma EndRegroup(e: string, x: string, y: string, sid: string, blanks: string)
    ensures e + x + y + sid + blanks == e + (x + (y + (sid + blanks)))
  {
    Regroup4(e, x, y, sid);
    Regroup(e, x + (y + sid), blanks);
    Regroup(x, y + sid, blanks);
    Regroup(y, sid, blanks);
  }

  /** The closing line is read back as the two numbers it was written with. */
  lemma InterpretsEnd(h: Info, disks: nat, n: nat, acc: Acc)
    requires IsWord(h.sid) && |h.sid| == SLICE_ID_SIZE && |acc.dsize| == disks
    ensures Interpret(EndLine(h, Write, n), h.sid, disks, acc) == Eoh(h.sliceSize, h.filesCount)
    ensures OneLine(EndWords(h, n)) && EndLine(h, Write, n) == EndWords(h, n) + [NEWLINE]
  {
    hide EndLine, EohLine, Filling, Decimal, Tokens, Atol, TrimEnd, Padded, Column, OneLine, IsWord, Blanks;
    var size, files, blanks := Decimal(h.sliceSize), Decimal(h.filesCount), 7 - (n + |EohLine(h, Write)|) % 8;
    var k := if |size| < 12 then 12 - |size| else 0;
    var l := if |files| < 8 then 8 - |files| else 0;
    EndSpelled(h, n);
    WordFacts();
    AtolRound(h.sliceSize);
    AtolRound(h.filesCount);
    FourTokens(0, "EOH", k, size, l, files, h.sid + Blanks(blanks));
    TrimsBlanks(h.sid, blanks);
    EndIsLine(k, size, l, files, h.sid, blanks);
    assert Chomp(EndWords(h, n) + [NEWLINE]) == EndWords(h, n);
  }

  lemma EndIsLine(k: nat, size: string, l: nat, files: string, sid: string, m: nat)
    requires OneLine(size) && OneLine(files) && IsWord(sid)
    ensures OneLine(Blanks(0) + "EOH" + " " + (Blanks(k) + size + " " + (Blanks(l) + files + " " + (sid + Blanks(m)))))
  {
    WordIsLine(sid);
    BlanksAreLine(m);
    BlanksAreLine(l);
    BlanksAreLine(k);
    hide IsWord, Blanks;
    var a := Blanks(l) + files + " " + (sid + Blanks(m));
    assert OneLine(a);
    var b := Blanks(k) + size + " " + a;
    assert OneLine(b);
    assert OneLine("EOH" + " ");
    NoBlanks("EOH");
    assert Blanks(0) + "EOH" + " " + b == "EOH" + " " + b;
  }

  // ---------------------------------------------------------------- the round trip

  lemma FirstSpelled(h: Info)
    requires |h.sid| == SLICE_ID_SIZE
    ensures var fill := Decimal(h.fill);
      FirstLine(h) == Blanks(0) + "ParitySlice:" + " " + (Blanks(0) + h.sid + " "
        + (Blanks(1) + "fill:" + " " + (Blanks(if |fill| < 3 then 3 - |fill| else 0) + fill)))
  {
    hide Decimal;
    var fill := Decimal(h.fill);
    assert Column(SLICE_ID_SIZE, h.sid) == h.sid;
    assert "ParitySlice: " == Blanks(0) + "ParitySlice:" + " ";
    assert "  fill: " == " " + (Blanks(1) + "fill:" + " ");
    NoBlanks(h.sid);
  }

  lemma LastTokens(k: nat, w: string, n: nat)
    requires IsWord(w) && n <= TOKENS_MAX
    ensures Tokens(Blanks(k) + w, 0, n) == [w]
  {
    hide Strtok;
    LastToken(k, w);
    assert Tokens([], 0, n + 1) == [] by {
      assert Strtok([]).word == [] by { NoToken(); }
    }
    assert [w] + [] == [w];
  }

  lemma NoToken()
    ensures Strtok([]).word == []
  {
  }

  lemma FirstTokens(h: Info)
    requires IsWord(h.sid) && |h.sid| == SLICE_ID_SIZE
    ensures Tokens(FirstLine(h), 0, 0) == ["ParitySlice:", h.sid, "fill:", Decimal(h.fill)]
    ensures OneLine(FirstLine(h))
  {
    hide Tokens, FirstLine, IsWord, OneLine, Blanks, Decimal;
    var fill := Decimal(h.fill);
    var k := if |fill| < 3 then 3 - |fill| else 0;
    WordFacts();
    AtolRound(h.fill);
    FirstSpelled(h);
    LastTokens(k, fill, 3);
    TokenThen(1, "fill:", Blanks(k) + fill, 0, 2);
    TokenThen(0, h.sid, Blanks(1) + "fill:" + " " + (Blanks(k) + fill), 0, 1);
    TokenThen(0, "ParitySlice:", Blanks(0) + h.sid + " " + (Blanks(1) + "fill:" + " " + (Blanks(k) + fill)), 0, 0);
    WordIsLine(h.sid);
    FirstIsLine(h);
  }

  lemma FirstIsLine(h: Info)
    requires OneLine(h.sid) && OneLine(Decimal(h.fill))
    ensures OneLine(FirstLine(h))
  {
    hide Decimal;
    ColumnIsLine(SLICE_ID_SIZE, h.sid);
    ColumnIsLine(3, Decimal(h.fill));
    hide Column, Padded;
    WordFacts();
    JoinLines("ParitySlice: ", Column(SLICE_ID_SIZE, h.sid));
    JoinLines("ParitySlice: " + Column(SLICE_ID_SIZE, h.sid), "  fill: ");
    JoinLines("ParitySlice: " + Column(SLICE_ID_SIZE, h.sid) + "  fill: ", Padded(3, Decimal(h.fill)));
  }

  lemma TailTokens(sid: string)
    requires IsWord(sid)
    ensures Tokens("ParityTail: " + sid, 0, 0) == ["ParityTail:", sid]
    ensures OneLine("ParityTail: " + sid)
  {
    hide Tokens, IsWord, OneLine, Blanks;
    WordFacts();
    WordIsLine(sid);
    LastTokens(0, sid, 1);
    NoBlanks(sid);
    TokenThen(0, "ParityTail:", sid, 0, 0);
    NoBlanks("ParityTail:");
    assert "ParityTail:" + " " == "ParityTail: ";
    WordIsLine("ParityTail:");
    JoinLines("ParityTail:", " ");
    JoinLines("ParityTail: ", sid);
  }

  lemma TailReads(sid: string)
    requires IsWord(sid) && |sid| == SLICE_ID_SIZE
    ensures TailOk(Tail(sid), 0, sid)
  {
    hide Tokens, IsWord, OneLine, LineLength;
    var t := "ParityTail: " + sid;
    TailTokens(sid);
    assert Tail(sid) == t by { NoBlanks(sid); }
    hide Tail;
    TextEnds(t, PATH_MAX - 1);
    WholeText(t);
    NoNewlineAtEnd(t);
    assert t[..11] == "ParityTail:";
  }

  lemma WholeText(t: string)
    ensures t[0..] == t && t[..|t|] == t
  {
  }

  lemma NoNewlineAtEnd(t: string)
    requires OneLine(t)
    ensures Chomp(t) == t
  {
  }

  function FileLines(h: Info, m: nat): string
    requires DisksOk(h) && m <= |h.rows|
    decreases |h.rows| - m
  {
    if m == |h.rows| then [] else FileLine(h.rows[m], Write) + [NEWLINE] + FileLines(h, m + 1)
  }

  lemma {:induction false} BodySplit(h: Info, m: nat)
    requires DisksOk(h) && m <= |h.rows|
    ensures Body(h, Write, |h.rows|) == Body(h, Write, m) + FileLines(h, m)
    decreases |h.rows| - m
  {
    hide FileLine, FirstLine;
    if m == |h.rows| {
      Regroup(Body(h, Write, m), [], []);
    } else {
      BodySplit(h, m + 1);
      DiskBelow(h, m);
      var line, rest := FileLine(h.rows[m], Write), FileLines(h, m + 1);
      Regroup4(Body(h, Write, m), line, [NEWLINE], rest);
      Regroup(line, [NEWLINE], rest);
    }
  }

  lemma DiskBelow(h: Info, m: nat)
    requires DisksOk(h) && m < |h.rows|
    ensures h.rows[m].disk < 9
  {
  }

  /** What the loop has gathered after m file lines: the expected rows, the sum of every disk and the largest sum. */
  ghost function AccAt(h: Info, disks: nat, m: nat): (acc: Acc)
    requires DisksOk(h) && m <= |h.rows|
    ensures |acc.dsize| == disks && |acc.rows| == m
  {
    Acc(seq(m, j requires 0 <= j < m => Expected(h.rows, j)),
      seq(disks, d requires 0 <= d < disks => SumBefore(h.rows, m, d)),
        MaxSum(h.rows, m))
  }

  lemma AccStep(h: Info, disks: nat, m: nat)
    requires DisksOk(h) && m < |h.rows| && h.rows[m].disk < disks <= 9
    ensures var r := h.rows[m];
      AddRow(AccAt(h, disks, m), r.disk, r.fsize, r.mtime, Path(r)) == AccAt(h, disks, m + 1)
  {
    hide Path;
    var r, now, next := h.rows[m], AccAt(h, disks, m), AccAt(h, disks, m + 1);
    var added := AddRow(now, r.disk, r.fsize, r.mtime, Path(r));
    assert added.rows == next.rows;
    assert added.dsize == next.dsize;
  }

  lemma InfoFacts(h: Info, disks: nat)
    requires InfoOk(h, disks)
    ensures DisksOk(h) && disks <= 9 && IsWord(h.sid) && |h.sid| == SLICE_ID_SIZE
    ensures h.filesCount == |h.rows| && h.sliceSize == MaxSum(h.rows, |h.rows|)
    ensures |FirstLine(h)| + 1 < PATH_MAX && |EndLine(h, Write, |Body(h, Write, |h.rows|)|)| < PATH_MAX
  {
  }

  lemma InfoRow(h: Info, disks: nat, m: nat)
    requires InfoOk(h, disks) && m < |h.rows|
    ensures RowOk(h.rows[m], disks) && h.rows[m].disk < disks <= 9
  {
  }

  /** Loading the file lines from the m-th on and the closing line. */
  lemma {:induction false} LoadsLines(h: Info, disks: nat, m: nat, tail: string)
    requires InfoOk(h, disks) && DisksOk(h) && m <= |h.rows|
    ensures var n := |Body(h, Write, |h.rows|)|;
      LoadLines(FileLines(h, m) + (EndLine(h, Write, n) + tail), |Body(h, Write, m)|, h.sid, disks, AccAt(h, disks, m))
      == Lines(AccAt(h, disks, |h.rows|), |Header(h, Write)|, h.sliceSize, h.filesCount)
    decreases |h.rows| - m
  {
    hide InfoOk, DisksOk, FileLine, FirstLine, EndLine, EndWords, RowOk, Interpret, AccAt, AddRow, OneLine, ReadLine,
      IsWord;
    InfoFacts(h, disks);
    var n := |Body(h, Write, |h.rows|)|;
    var end, acc := EndLine(h, Write, n), AccAt(h, disks, m);
    if m == |h.rows| {
      InterpretsEnd(h, disks, n, acc);
      ReadsLine(EndWords(h, n), tail);
      assert FileLines(h, m) + (end + tail) == end + tail;
    } else {
      InfoRow(h, disks, m);
      var r := h.rows[m];
      var line, rest := FileLine(r, Write), FileLines(h, m + 1) + (end + tail);
      FileIsLine(r, disks);
      InterpretsFile(r, h.sid, disks, acc);
      AccStep(h, disks, m);
      ReadsLine(line, rest);
      Regroup(line + [NEWLINE], FileLines(h, m + 1), end + tail);
      LoadsLines(h, disks, m + 1, tail);
    }
  }

  lemma SliceSpelled(h: Info, parity: string)
    requires DisksOk(h)
    ensures var n := |Body(h, Write, |h.rows|)|;
      SliceText(h, parity) == FirstLine(h) + [NEWLINE]
        + (FileLines(h, 0) + (EndLine(h, Write, n) + (parity + Tail(h.sid))))
  {
    var n := |Body(h, Write, |h.rows|)|;
    BodySplit(h, 0);
    var first, files, end, tail := FirstLine(h) + [NEWLINE], FileLines(h, 0), EndLine(h, Write, n), Tail(h.sid);
    assert Body(h, Write, 0) == first;
    hide Body, FileLines, EndLine, Tail, FirstLine, DisksOk;
    Regroup4(first + files, end, parity, tail);
    Regroup(first, files, end + (parity + tail));
  }

  lemma TailBehind(h: Info, parity: string)
    requires DisksOk(h) && IsWord(h.sid) && |h.sid| == SLICE_ID_SIZE
    ensures TailOk(SliceText(h, parity), |parity| + |Header(h, Write)|, h.sid)
  {
    hide Header, Tail, Tokens, ReadLine, IsWord;
    TailReads(h.sid);
    var text, at := SliceText(h, parity), |parity| + |Header(h, Write)|;
    assert text[at..] == Tail(h.sid) == Tail(h.sid)[0..];
  }

  /**
   * The header round trip: loading a slice file that was written gives back every size, time, path and
   * disk in order, with starts as the sums of the sizes before on the same disk, and the slice's size,
   * number of files, fill and the exact length of the header.
   */
  lemma HeaderRoundTrip(h: Info, disks: nat, parity: string)
    requires InfoOk(h, disks) && DisksOk(h) && |parity| == h.sliceSize
    ensures Load(SliceText(h, parity), h.sid, disks)
      == Loaded(seq(|h.rows|, j requires 0 <= j < |h.rows| => Expected(h.rows, j)), h.sliceSize, h.filesCount,
                |Header(h, Write)|, h.fill)
  {
    hide InfoOk, DisksOk, FileLine, FirstLine, EndLine, Interpret, OneLine, ReadLine, IsWord, TailOk, SliceText, Header,
      FileLines,
      Tokens, LoadLines, Decimal, Atol, Tail, AccAt, Body, MaxSum, Chomp;
    InfoFacts(h, disks);
    AtolRound(h.fill);
    SumsStartAtZero(h, disks);
    AccAtEnd(h, disks);
    var text := SliceText(h, parity);
    var n := |Body(h, Write, |h.rows|)|;
    var rest := FileLines(h, 0) + (EndLine(h, Write, n) + (parity + Tail(h.sid)));
    SliceSpelled(h, parity);
    FirstTokens(h);
    ReadsLine(FirstLine(h), rest);
    LoadsLines(h, disks, 0, parity + Tail(h.sid));
    TailBehind(h, parity);
  }

  lemma AccAtEnd(h: Info, disks: nat)
    requires DisksOk(h)
    ensures var acc := AccAt(h, disks, |h.rows|);
      && acc.rows == seq(|h.rows|, j requires 0 <= j < |h.rows| => Expected(h.rows, j))
      && acc.sliceSize == MaxSum(h.rows, |h.rows|)
  {
  }

  lemma SumsStartAtZero(h: Info, disks: nat)
    requires DisksOk(h)
    ensures AccAt(h, disks, 0) == Acc([], seq(disks, _ => 0), 0)
    ensures |Body(h, Write, 0)| == |FirstLine(h)| + 1
  {
  }

  // ---------------------------------------------------------------- too many words

  /**
   * A first line of more words than the token array has places: splitting it writes past the array, whatever
   * follows.
   */
  lemma FirstLineOverruns(line: string, rest: string, sid: string, disks: nat)
    requires OneLine(line) && |line| + 1 < PATH_MAX && |Words(line)| > TOKENS_MAX
    ensures var text := line + [NEWLINE] + rest;
      |Tokens(Chomp(ReadLine(text)), Limit(0), 0)| > TOKENS_MAX && Load(text, sid, disks) == Rejected
  {
    hide Tokens, Words, OneLine, ReadLine, Chomp, LoadLines;
    ReadsLine(line, rest);
    OverrunsIff(line, 0);
  }

  const SIX_WORDS: string := "ParitySlice: a b c d e"

  lemma SixTokens()
    ensures Tokens(SIX_WORDS, 0, 0) == ["ParitySlice:", "a", "b", "c", "d", "e"]
  {
    hide Tokens, IsWord;
    ShortWords();
    NoBlanks("e");
    LastTokens(0, "e", 5);
    WordThen("d", "e", 4);
    WordThen("c", "d e", 3);
    WordThen("b", "c d e", 2);
    WordThen("a", "b c d e", 1);
    WordThen("ParitySlice:", "a b c d e", 0);
  }

  lemma ShortWords()
    ensures IsWord("a") && IsWord("b") && IsWord("c") && IsWord("d") && IsWord("e") && IsWord("ParitySlice:")
    ensures SIX_WORDS == "ParitySlice:" + " " + "a b c d e" && "a b c d e" == "a" + " " + "b c d e"
    ensures "b c d e" == "b" + " " + "c d e" && "c d e" == "c" + " " + "d e" && "d e" == "d" + " " + "e"
  {
  }

  /** A word, a blank and the rest. */
  lemma WordThen(w: string, rest: string, n: nat)
    requires IsWord(w) && n <= TOKENS_MAX
    ensures Tokens(w + " " + rest, 0, n) == [w] + Tokens(rest, 0, n + 1)
  {
    hide Tokens, IsWord;
    NoBlanks(w);
    TokenThen(0, w, rest, 0, n);
  }

  /** An input: a file that begins with such a line of six words. */
  lemma SixWordsOverrun(rest: string, sid: string, disks: nat)
    ensures var text := SIX_WORDS + [NEWLINE] + rest;
      |Tokens(Chomp(ReadLine(text)), Limit(0), 0)| == TOKENS_MAX + 1 && Load(text, sid, disks) == Rejected
  {
    hide Tokens, Words, ReadLine, Chomp, LoadLines, Load;
    SixTokens();
    assert OneLine(SIX_WORDS);
    OverrunsIff(SIX_WORDS, 0);
    ReadsLine(SIX_WORDS, rest);
    FirstLineOverruns(SIX_WORDS, rest, sid, disks);
  }
}

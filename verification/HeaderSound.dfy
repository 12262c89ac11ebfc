/**
 * What a text has to look like to be loaded as a slice file, line by line and independently of how the
 * loader reads it, and that the loader accepts exactly such texts, with exactly those rows and numbers.
 */
module HeaderSound {
  import opened Text
  import opened HeaderText
  import opened HeaderLoad

  /** The lines are the ones that the text is read as, one after the other. */
  predicate ReadAs(text: string, lines: seq<string>)
    decreases |lines|
  {
    |lines| == 0 || (|lines[0]| > 0 && ReadLine(text) == lines[0] && |lines[0]| <= |text|
                     && ReadAs(text[|lines[0]|..], lines[1..]))
  }

  /** The length of lines together. */
  function Length(lines: seq<string>): nat
    decreases |lines|
  {
    if |lines| == 0 then 0 else |lines[0]| + Length(lines[1..])
  }

  /** Bytes of disk d among the first m rows. */
  function SumOf(rows: seq<LoadedRow>, m: nat, d: nat): nat
    requires m <= |rows|
  {
    if m == 0 then 0 else SumOf(rows, m - 1, d) + if rows[m - 1].disk == d then rows[m - 1].fsize else 0
  }

  /** A path that begins with the name of disk d: the letter D, its number from one on, and a separator. */
  predicate OnDisk(path: string, d: nat) {
    d < 9 && |path| >= 3 && path[..3] == DiskName(d) + "/"
  }

  /** A file line, and the row it stands for. */
  predicate FileLineFor(line: string, disks: nat, row: LoadedRow) {
    var tok := Tokens(Chomp(line), 4, 0);
    && |tok| >= 4 && tok[0] != "EOH" && row.disk < disks && OnDisk(tok[3], row.disk)
    && row.fsize == Atol(tok[0]) && row.mtime == tok[1] && row.path == tok[3]
  }

  /** Row j has the next key and starts where the rows before it on its disk end. */
  predicate InPlace(rows: seq<LoadedRow>, j: nat)
    requires j < |rows|
  {
    rows[j].dseq == j + 1 && rows[j].start == SumOf(rows, j, rows[j].disk)
  }

  /** The longest disk. */
  ghost predicate Longest(rows: seq<LoadedRow>, disks: nat, size: nat) {
    && (forall d: nat {:trigger SumOf(rows, |rows|, d)} :: d < disks ==> SumOf(rows, |rows|, d) <= size)
    && (size == 0 || exists d: nat {:trigger SumOf(rows, |rows|, d)} :: d < disks && SumOf(rows, |rows|, d) == size)
  }

  /** Row j is the one that the line stands for. */
  predicate RowFor(rows: seq<LoadedRow>, j: nat, line: string, disks: nat)
    requires j < |rows|
  {
    FileLineFor(line, disks, rows[j]) && InPlace(rows, j)
  }

  /** A row for each line. */
  ghost predicate RowsFor(lines: seq<string>, disks: nat, rows: seq<LoadedRow>) {
    && |lines| == |rows|
    && forall j {:trigger lines[j]} :: 0 <= j < |lines| ==> RowFor(rows, j, lines[j], disks)
  }

  /** The closing line of the file lines. */
  predicate ClosingLine(line: string, sid: string, size: nat, files: nat) {
    var tok := Tokens(Chomp(line), 4, 0);
    |line| > 0 && |tok| >= 4 && tok[0] == "EOH" && TrimEnd(tok[3]) == sid && Atol(tok[1]) == size
      && Atol(tok[2]) == files
  }

  /** The first line: the slice's name, and how far it is filled. */
  predicate FirstFor(first: string, sid: string, fill: nat) {
    var tok := Tokens(Chomp(first), 0, 0);
    |tok| == 4 && tok[0] == "ParitySlice:" && tok[1] == sid && tok[2] == "fill:" && fill == Atol(tok[3])
  }

  /**
   * A slice file: the first line with the slice's name, a line for each file, a closing line that repeats
   * the slice's length and number of files, and behind header and parity a tail with the name again.
   */
  ghost predicate SliceFile(text: string, sid: string, disks: nat, first: string, lines: seq<string>, eoh: string,
                            l: Loaded) {
    && l.Loaded? && |first| > 0 && ReadAs(text, [first] + lines + [eoh])
    && FirstFor(first, sid, l.fill)
    && RowsFor(lines, disks, l.rows) && Longest(l.rows, disks, l.sliceSize)
    && l.files == |l.rows| && ClosingLine(eoh, sid, l.sliceSize, l.files)
    && l.headerSize == |first| + Length(lines) + |eoh|
    && HasTail(text, l.headerSize + l.sliceSize, sid)
  }

  predicate HasTail(text: string, at: nat, sid: string) {
    && at <= |text| && "ParityTail:" <= ReadLine(text[at..])
    && |Tokens(Chomp(ReadLine(text[at..])), 0, 0)| == 2 && Tokens(Chomp(ReadLine(text[at..])), 0, 0)[1] == sid
  }

  /** What is left of a text without the blanks at its end. */
  lemma {:induction false} TrimmedIff(s: string, t: string)
    ensures TrimEnd(s) == t
      <==> (t <= s && AllBlank(s[|t|..]) && (|t| > 0 ==> !IsBlank(t[|t| - 1])))
  {
    hide IsBlank;
    if |s| > 0 && IsBlank(s[|s| - 1]) {
      var n := |s| - 1;
      TrimmedIff(s[..n], t);
      if t <= s {
        assert t == s[..|t|];
        if |t| <= n {
          BlankBehind(s, |t|);
        }
      }
    } else if t <= s {
      NoBlankBehind(s, |t|);
      assert |t| == |s| ==> t == s;
    }
  }

  lemma BlankBehind(s: string, k: nat)
    requires k < |s| && IsBlank(s[|s| - 1])
    ensures AllBlank(s[k..]) <==> AllBlank(s[..|s| - 1][k..])
    ensures s[..k] == s[..|s| - 1][..k]
  {
    hide IsBlank;
    assert s[k..] == s[..|s| - 1][k..] + [s[|s| - 1]];
  }

  lemma NoBlankBehind(s: string, k: nat)
    requires k <= |s| && (|s| > 0 ==> !IsBlank(s[|s| - 1]))
    ensures AllBlank(s[k..]) <==> k == |s|
  {
    hide IsBlank;
    assert k < |s| ==> s[k..][|s| - 1 - k] == s[|s| - 1];
  }

  // ---------------------------------------------------------------- rows

  /** The disk that a path is on. */
  lemma DiskOfIff(path: string, disks: nat, d: nat)
    ensures DiskOf(path, disks) == d <==> d < disks && OnDisk(path, d)
  {
    if d < 9 && |path| >= 3 {
      assert path[..3] == [path[0], path[1], path[2]];
      assert DiskName(d) + "/" == ['D', DigitChar(d + 1), '/'];
      assert DigitChar(d + 1) == "0123456789"[d + 1] && DigitValue(DigitChar(d + 1)) == d + 1;
    }
  }

  /** What has been gathered agrees with the rows. */
  ghost predicate AccOk(acc: Acc, disks: nat) {
    && |acc.dsize| == disks && Longest(acc.rows, disks, acc.sliceSize)
    && forall d: nat {:trigger acc.dsize[d]} :: d < disks ==> acc.dsize[d] == SumOf(acc.rows, |acc.rows|, d)
  }

  lemma {:induction false} SumPrefix(rows: seq<LoadedRow>, r: LoadedRow, m: nat, d: nat)
    requires m <= |rows|
    ensures SumOf(rows + [r], m, d) == SumOf(rows, m, d)
  {
    if m > 0 {
      SumPrefix(rows, r, m - 1, d);
    }
  }

  lemma SumAppend(rows: seq<LoadedRow>, r: LoadedRow, d: nat)
    ensures SumOf(rows + [r], |rows| + 1, d) == SumOf(rows, |rows|, d) + if r.disk == d then r.fsize else 0
  {
    SumPrefix(rows, r, |rows|, d);
  }

  lemma AddRowOk(acc: Acc, disks: nat, d: nat, fsize: nat, mtime: string, path: string)
    requires AccOk(acc, disks) && d < disks
    ensures var next := AddRow(acc, d, fsize, mtime, path);
      && AccOk(next, disks) && |next.rows| == |acc.rows| + 1 && next.rows[..|acc.rows|] == acc.rows
      && InPlace(next.rows, |acc.rows|)
      && next.rows[|acc.rows|] == LoadedRow(d, |acc.rows| + 1, fsize, SumOf(acc.rows, |acc.rows|, d), mtime, path)
  {
    hide SumOf, Longest;
    var next := AddRow(acc, d, fsize, mtime, path);
    var row := next.rows[|acc.rows|];
    assert next.rows == acc.rows + [row];
    SumPrefix(acc.rows, row, |acc.rows|, d);
    forall e: nat {:trigger SumOf(next.rows, |next.rows|, e)} | e < disks
      ensures SumOf(next.rows, |next.rows|, e) == next.dsize[e]
    {
      SumAppend(acc.rows, row, e);
    }
    LongestGrows(acc, next, disks, d);
  }

  lemma LongestGrows(acc: Acc, next: Acc, disks: nat, d: nat)
    requires AccOk(acc, disks) && d < disks && |next.dsize| == disks
    requires forall e: nat {:trigger SumOf(next.rows, |next.rows|, e)} :: e < disks ==>
      SumOf(next.rows, |next.rows|, e) == next.dsize[e]
    requires forall e: nat {:trigger next.dsize[e]} :: e < disks ==>
      next.dsize[e] == acc.dsize[e] || (e == d && next.dsize[e] >= acc.dsize[e])
    requires next.sliceSize == if next.dsize[d] > acc.sliceSize then next.dsize[d] else acc.sliceSize
    ensures Longest(next.rows, disks, next.sliceSize)
  {
    hide SumOf;
    forall e: nat {:trigger SumOf(next.rows, |next.rows|, e)} | e < disks
      ensures SumOf(next.rows, |next.rows|, e) <= next.sliceSize
    {
      assert acc.dsize[e] == SumOf(acc.rows, |acc.rows|, e);
      assert next.dsize[e] == acc.dsize[e] || e == d;
    }
    if next.sliceSize > 0 {
      if next.dsize[d] > acc.sliceSize {
        assert SumOf(next.rows, |next.rows|, d) == next.sliceSize;
      } else {
        var e: nat :| e < disks && SumOf(acc.rows, |acc.rows|, e) == acc.sliceSize;
        assert acc.dsize[e] == acc.sliceSize;
        assert SumOf(next.rows, |next.rows|, e) == next.dsize[e];
      }
    }
  }

  /** How one line is taken, in terms of what it looks like. */
  lemma InterpretMeans(line: string, sid: string, disks: nat, acc: Acc)
    requires AccOk(acc, disks)
    ensures var r := Interpret(line, sid, disks, acc);
      && (r.Row? ==>
            && |r.acc.rows| == |acc.rows| + 1 && r.acc.rows[..|acc.rows|] == acc.rows && AccOk(r.acc, disks)
            && FileLineFor(line, disks, r.acc.rows[|acc.rows|]) && InPlace(r.acc.rows, |acc.rows|))
      && (r.Eoh? && |line| > 0 ==> ClosingLine(line, sid, r.size, r.files))
      && (forall size: nat, files: nat {:trigger ClosingLine(line, sid, size, files)} ::
            ClosingLine(line, sid, size, files) ==> r == Eoh(size, files))
      && (forall row: LoadedRow {:trigger FileLineFor(line, disks, row)} :: FileLineFor(line, disks, row) ==>
            r.Row? && r.acc.rows[|acc.rows|]
              == row.(dseq := |acc.rows| + 1, start := SumOf(acc.rows, |acc.rows|, row.disk)))
  {
    hide Tokens, Chomp, TrimEnd, Atol, AccOk, SumOf, DiskOf, OnDisk, AddRow, InPlace;
    var tok := Tokens(Chomp(line), 4, 0);
    if |tok| >= 4 {
      forall row: LoadedRow {:trigger FileLineFor(line, disks, row)} | FileLineFor(line, disks, row)
        ensures DiskOf(tok[3], disks) == row.disk
      {
        DiskOfIff(tok[3], disks, row.disk);
      }
      var d := DiskOf(tok[3], disks);
      if d >= 0 {
        DiskOfIff(tok[3], disks, d);
        DiskLimit(acc, disks);
        AddRowOk(acc, disks, d, Atol(tok[0]), tok[1], tok[3]);
      }
    }
  }

  lemma DiskLimit(acc: Acc, disks: nat)
    requires AccOk(acc, disks)
    ensures |acc.dsize| == disks
  {
  }

  // ---------------------------------------------------------------- accepted texts

  /** Rows behind others, each for its line. */
  ghost predicate Continues(acc: seq<LoadedRow>, rows: seq<LoadedRow>, lines: seq<string>, disks: nat) {
    && |rows| == |acc| + |lines| && rows[..|acc|] == acc
    && forall j {:trigger lines[j]} :: 0 <= j < |lines| ==> RowFor(rows, |acc| + j, lines[j], disks)
  }

  lemma ContinuesNothing(acc: seq<LoadedRow>, disks: nat)
    ensures Continues(acc, acc, [], disks)
  {
    assert acc[..|acc|] == acc;
  }

  lemma {:induction false} SumOfPrefix(a: seq<LoadedRow>, b: seq<LoadedRow>, m: nat, d: nat)
    requires m <= |a| <= |b| && b[..|a|] == a
    ensures SumOf(a, m, d) == SumOf(b, m, d)
  {
    if m > 0 {
      SumOfPrefix(a, b, m - 1, d);
      assert a[m - 1] == b[..|a|][m - 1];
    }
  }

  lemma ContinuesFurther(acc: seq<LoadedRow>, next: seq<LoadedRow>, rows: seq<LoadedRow>, line: string,
                         lines: seq<string>, disks: nat)
    requires |next| == |acc| + 1 && next[..|acc|] == acc && FileLineFor(line, disks, next[|acc|])
    requires InPlace(next, |acc|)
    requires Continues(next, rows, lines, disks)
    ensures Continues(acc, rows, [line] + lines, disks)
  {
    hide FileLineFor, SumOf;
    var all := [line] + lines;
    assert all[0] == line;
    assert rows[|acc|] == rows[..|next|][|acc|] == next[|acc|];
    assert rows[..|acc|] == rows[..|next|][..|acc|] == acc;
    SumOfPrefix(next, rows, |acc|, rows[|acc|].disk);
    assert RowFor(rows, |acc|, line, disks);
    hide RowFor;
    forall j {:trigger all[j]} | 0 <= j < |all|
      ensures RowFor(rows, |acc| + j, all[j], disks)
    {
      if j > 0 {
        var k := j - 1;
        assert all[j] == lines[k];
        assert |next| + k == |acc| + j;
      }
    }
  }

  /** The loop over the lines accepts only such lines. */
  lemma {:induction false} LinesSound(text: string, hs: nat, sid: string, disks: nat, acc: Acc)
    returns (lines: seq<string>, eoh: string)
    requires AccOk(acc, disks) && |acc.dsize| == disks && LoadLines(text, hs, sid, disks, acc).Lines?
    ensures var r := LoadLines(text, hs, sid, disks, acc);
      && AccOk(r.acc, disks) && Continues(acc.rows, r.acc.rows, lines, disks)
      && r.headerSize == hs + Length(lines) + |eoh|
      && (if |eoh| > 0 then ReadAs(text, lines + [eoh]) && ClosingLine(eoh, sid, r.eohSize, r.eohFiles)
          else Length(lines) == |text| && r.eohSize == 0)
    decreases |text|
  {
    hide AccOk, Interpret, ReadLine, FileLineFor, InPlace, ClosingLine, Continues;
    LineFacts(text);
    var line := ReadLine(text);
    ContinuesNothing(acc.rows, disks);
    if |line| == 0 {
      lines, eoh := [], "";
      NoLine(text);
    } else {
      InterpretMeans(line, sid, disks, acc);
      match Interpret(line, sid, disks, acc)
      case Eoh(size, files) =>
        lines, eoh := [], line;
        OneLineRead(text, line);
      case Row(next) =>
        var rest;
        rest, eoh := LinesSound(text[|line|..], hs + |line|, sid, disks, next);
        lines := [line] + rest;
        assert lines[1..] == rest;
        ContinuesFurther(acc.rows, next.rows, LoadLines(text, hs, sid, disks, acc).acc.rows, line, rest, disks);
        if |eoh| > 0 {
          assert (lines + [eoh])[1..] == rest + [eoh];
        }
    }
  }

  lemma NoLine(text: string)
    requires |ReadLine(text)| == 0
    ensures |text| == 0
  {
  }

  lemma OneLineRead(text: string, line: string)
    requires line == ReadLine(text) && 0 < |line| <= |text|
    ensures ReadAs(text, [line]) && [] + [line] == [line]
  {
    assert ReadAs(text[|line|..], []);
    assert [line][1..] == [];
  }

  /** And it accepts all of them. */
  lemma {:induction false} LinesComplete(text: string, hs: nat, sid: string, disks: nat, acc: Acc, lines: seq<string>,
                                         eoh: string, rows: seq<LoadedRow>, size: nat, files: nat)
    requires AccOk(acc, disks) && |acc.dsize| == disks && ReadAs(text, lines + [eoh])
    requires Continues(acc.rows, rows, lines, disks) && ClosingLine(eoh, sid, size, files)
    ensures var r := LoadLines(text, hs, sid, disks, acc);
      r.Lines? && r.acc.rows == rows && AccOk(r.acc, disks) && r.headerSize == hs + Length(lines) + |eoh|
      && r.eohSize == size && r.eohFiles == files
    decreases |lines|
  {
    hide AccOk, Interpret, ReadLine, FileLineFor, ClosingLine, InPlace;
    if |lines| == 0 {
      assert lines + [eoh] == [eoh];
      InterpretMeans(eoh, sid, disks, acc);
      assert rows == acc.rows;
    } else {
      var line := lines[0];
      assert (lines + [eoh])[0] == line && (lines + [eoh])[1..] == lines[1..] + [eoh];
      InterpretMeans(line, sid, disks, acc);
      var n := |acc.rows|;
      assert RowFor(rows, n + 0, line, disks);
      var next := Interpret(line, sid, disks, acc).acc;
      RowInPlace(acc.rows, rows, n);
      assert next.rows == rows[..n + 1];
      ContinuesLater(acc.rows, next.rows, rows, lines, disks);
      AccWidth(next, disks);
      LinesComplete(text[|line|..], hs + |line|, sid, disks, next, lines[1..], eoh, rows, size, files);
    }
  }

  lemma AccWidth(acc: Acc, disks: nat)
    requires AccOk(acc, disks)
    ensures |acc.dsize| == disks
  {
  }

  lemma RowInPlace(acc: seq<LoadedRow>, rows: seq<LoadedRow>, n: nat)
    requires n == |acc| < |rows| && rows[..n] == acc && InPlace(rows, n)
    ensures rows[n] == rows[n].(dseq := n + 1, start := SumOf(acc, n, rows[n].disk))
  {
    SumOfPrefix(acc, rows, n, rows[n].disk);
  }

  lemma ContinuesLater(acc: seq<LoadedRow>, next: seq<LoadedRow>, rows: seq<LoadedRow>, lines: seq<string>, disks: nat)
    requires |lines| > 0 && Continues(acc, rows, lines, disks) && next == rows[..|acc| + 1]
    ensures Continues(next, rows, lines[1..], disks)
  {
    hide RowFor;
    var rest := lines[1..];
    forall j {:trigger rest[j]} | 0 <= j < |rest|
      ensures RowFor(rows, |next| + j, rest[j], disks)
    {
      var k := j + 1;
      assert rest[j] == lines[k];
      assert |next| + j == |acc| + k;
    }
  }

  function NoRowsYet(disks: nat): Acc { Acc([], seq(disks, _ => 0), 0) }

  lemma NothingGathered(disks: nat)
    ensures AccOk(NoRowsYet(disks), disks)
  {
  }

  lemma FromNothing(rows: seq<LoadedRow>, lines: seq<string>, disks: nat)
    ensures Continues([], rows, lines, disks) <==> RowsFor(lines, disks, rows)
  {
    hide RowFor;
    assert rows[..0] == [];
    forall j {:trigger lines[j]} | 0 <= j < |lines| && |lines| == |rows|
      ensures RowFor(rows, 0 + j, lines[j], disks) == RowFor(rows, j, lines[j], disks)
    {
    }
  }

  lemma FirstIff(first: string, sid: string, fill: nat)
    ensures |first| > 0 && FirstFor(first, sid, fill)
      <==> FirstOk(first, sid) && fill == Atol(Tokens(Chomp(first), 0, 0)[3])
  {
    hide Tokens, Chomp, Atol;
  }

  lemma TailIff(text: string, at: nat, sid: string)
    ensures HasTail(text, at, sid) <==> TailOk(text, at, sid)
  {
    hide Tokens, Chomp, ReadLine;
    if at <= |text| {
      var line := ReadLine(text[at..]);
      assert "ParityTail:" <= line <==> |line| >= 11 && line[..11] == "ParityTail:";
    }
  }

  lemma NoTailAtEnd(text: string, sid: string)
    ensures !HasTail(text, |text|, sid)
  {
    hide Tokens, Chomp;
    assert text[|text|..] == "";
  }

  lemma LongestIsOne(rows: seq<LoadedRow>, disks: nat, a: nat, b: nat)
    requires Longest(rows, disks, a) && Longest(rows, disks, b)
    ensures a == b
  {
    hide SumOf;
  }

  lemma AccLongest(acc: Acc, disks: nat)
    requires AccOk(acc, disks)
    ensures Longest(acc.rows, disks, acc.sliceSize)
  {
  }

  /** Every text that is loaded is a slice file. */
  lemma LoadSound(text: string, sid: string, disks: nat) returns (first: string, lines: seq<string>, eoh: string)
    requires Load(text, sid, disks).Loaded?
    ensures SliceFile(text, sid, disks, first, lines, eoh, Load(text, sid, disks))
  {
    hide LoadLines, ReadLine, FirstOk, TailOk, AccOk, Continues, RowsFor, Longest, ClosingLine, ReadAs, HasTail,
      FirstFor, Length;
    LineFacts(text);
    first := ReadLine(text);
    FirstIff(first, sid, Load(text, sid, disks).fill);
    NothingGathered(disks);
    lines, eoh := LinesSound(text[|first|..], |first|, sid, disks, NoRowsYet(disks));
    var l, r := Load(text, sid, disks), LoadLines(text[|first|..], |first|, sid, disks, NoRowsYet(disks));
    FromNothing(r.acc.rows, lines, disks);
    AccLongest(r.acc, disks);
    TailIff(text, l.headerSize + l.sliceSize, sid);
    if |eoh| == 0 {
      NoTailAtEnd(text, sid);
    }
    FrontRead(text, first, lines + [eoh]);
    assert [first] + lines + [eoh] == [first] + (lines + [eoh]);
  }

  lemma FrontRead(text: string, first: string, rest: seq<string>)
    requires first == ReadLine(text) && |first| > 0 && |first| <= |text| && ReadAs(text[|first|..], rest)
    ensures ReadAs(text, [first] + rest)
  {
    assert ([first] + rest)[1..] == rest;
  }

  lemma RestRead(text: string, first: string, rest: seq<string>)
    requires ReadAs(text, [first] + rest)
    ensures first == ReadLine(text) && 0 < |first| <= |text| && ReadAs(text[|first|..], rest)
  {
    assert ([first] + rest)[1..] == rest;
  }

  /** Every slice file is loaded, with exactly its rows and numbers. */
  lemma LoadComplete(text: string, sid: string, disks: nat, first: string, lines: seq<string>, eoh: string, l: Loaded)
    requires SliceFile(text, sid, disks, first, lines, eoh, l)
    ensures Load(text, sid, disks) == l
  {
    hide LoadLines, ReadLine, FirstOk, TailOk, AccOk, Continues, RowsFor, Longest, ClosingLine, ReadAs, HasTail,
      FirstFor, Length;
    assert [first] + lines + [eoh] == [first] + (lines + [eoh]);
    RestRead(text, first, lines + [eoh]);
    FirstIff(first, sid, l.fill);
    NothingGathered(disks);
    FromNothing(l.rows, lines, disks);
    LinesComplete(text[|first|..], |first|, sid, disks, NoRowsYet(disks), lines, eoh, l.rows, l.sliceSize, l.files);
    var r := LoadLines(text[|first|..], |first|, sid, disks, NoRowsYet(disks));
    AccLongest(r.acc, disks);
    LongestIsOne(l.rows, disks, r.acc.sliceSize, l.sliceSize);
    TailIff(text, l.headerSize + l.sliceSize, sid);
  }

  /** The loader accepts exactly the slice files. */
  lemma LoadedIff(text: string, sid: string, disks: nat, l: Loaded)
    ensures l.Loaded? && Load(text, sid, disks) == l
      <==> exists first: string, lines: seq<string>,
        eoh: string {:trigger SliceFile(text, sid, disks, first, lines, eoh, l)} ::
        SliceFile(text, sid, disks, first, lines, eoh, l)
  {
    hide Load, ReadAs, FirstFor, RowsFor, Longest, ClosingLine, HasTail, Length;
    if l.Loaded? && Load(text, sid, disks) == l {
      var first, lines, eoh := LoadSound(text, sid, disks);
    }
    if first: string, lines: seq<string>, eoh: string :| SliceFile(text, sid, disks, first, lines, eoh, l) {
      LoadComplete(text, sid, disks, first, lines, eoh, l);
    }
  }
}

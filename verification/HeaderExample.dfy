/** A header written out: one slice with two files, in both passes. */
module HeaderExample {
  import opened Text
  import opened HeaderText

  const SID := "ps_0001_2024-01-02T03:04:05Z"
  const MTIME := "2023-11-12T13:14:15Z"

  /** A file of five bytes on the first disk and an empty one on the second. */
  function Example(): Info {
    Info(SID, 7, [FileRow(0, 5, MTIME, "fbcea83c8a378bf1", "a b"), FileRow(1, 0, MTIME, "", "c")], 5, 2)
  }

  lemma Five()
    ensures Decimal(5) == "5" && Padded(16, "5") == "               5" && Padded(12, "5") == "           5"
  {
    assert Blanks(15) == "               " && Blanks(11) == "           ";
  }

  lemma Small()
    ensures Decimal(7) == "7" && Decimal(2) == "2" && Decimal(0) == "0" && Padded(3, "7") == "  7"
    ensures Padded(8, "2") == "       2" && Padded(16, "0") == "               0"
  {
    assert Blanks(15) == "               " && Blanks(7) == "       " && Blanks(2) == "  ";
  }

  lemma Columns()
    ensures Column(28, SID) == SID && Column(20, MTIME) == MTIME && Padded(16, "fbcea83c8a378bf1") == "fbcea83c8a378bf1"
  {
    assert Blanks(0) == "";
  }

  lemma Placeholders()
    ensures Repeated('T', 20) == "TTTTTTTTTTTTTTTTTTTT" && Repeated('H', 16) == "HHHHHHHHHHHHHHHH"
    ensures Repeated('S', 28) == "SSSSSSSSSSSSSSSSSSSSSSSSSSSS" && Repeated('0', 16) == "0000000000000000"
    ensures Column(20, "TTTTTTTTTTTTTTTTTTTT") == "TTTTTTTTTTTTTTTTTTTT"
    ensures Column(28, "SSSSSSSSSSSSSSSSSSSSSSSSSSSS") == "SSSSSSSSSSSSSSSSSSSSSSSSSSSS"
    ensures Padded(16, "HHHHHHHHHHHHHHHH") == "HHHHHHHHHHHHHHHH" && Padded(16, "0000000000000000") == "0000000000000000"
  {
    assert Blanks(0) == "";
  }

  /** The lines of the example in both passes. */
  lemma Lines()
    ensures FirstLine(Example()) == "ParitySlice: " + SID + "  fill: " + "  7"
    ensures FileLine(Example().rows[0], Write)
      == "               5" + " " + MTIME + " " + "fbcea83c8a378bf1" + " " + "D1/a b"
    ensures FileLine(Example().rows[1], Write)
      == "               0" + " " + MTIME + " " + "0000000000000000" + " " + "D2/c"
    ensures FileLine(Example().rows[0], Init)
      == "               5" + " " + "TTTTTTTTTTTTTTTTTTTT" + " " + "HHHHHHHHHHHHHHHH" + " " + "D1/a b"
    ensures FileLine(Example().rows[1], Init)
      == "               0" + " " + "TTTTTTTTTTTTTTTTTTTT" + " " + "HHHHHHHHHHHHHHHH" + " " + "D2/c"
    ensures EohLine(Example(), Write) == "EOH " + "           5" + " " + "       2" + " " + SID
    ensures EohLine(Example(), Init) == "EOH " + "           5" + " " + "       2" + " "
      + "SSSSSSSSSSSSSSSSSSSSSSSSSSSS"
  {
    Five();
    Small();
    Columns();
    Placeholders();
    assert DiskName(0) + "/" + "a b" == "D1/a b" && DiskName(1) + "/" + "c" == "D2/c";
    hide Padded, Column, Decimal, Repeated, DiskName;
  }

  lemma Lengths(pass: Pass)
    ensures DisksOk(Example()) && |FirstLine(Example())| == 52 && |FileLine(Example().rows[0], pass)| == 61
    ensures |FileLine(Example().rows[1], pass)| == 59 && |EohLine(Example(), pass)| == 54
  {
    Lines();
    hide FirstLine, FileLine, EohLine;
  }

  /** The whole header: its lines in order, and blanks up to a multiple of eight bytes. */
  lemma WholeHeader(pass: Pass)
    ensures DisksOk(Example()) && |Header(Example(), pass)| == 232
    ensures Header(Example(), pass)
      == FirstLine(Example()) + "\n" + FileLine(Example().rows[0], pass) + "\n" + FileLine(Example().rows[1], pass)
        + "\n"
        + (EohLine(Example(), pass) + "  " + "\n")
  {
    Lengths(pass);
    hide FirstLine, FileLine, EohLine;
    var h := Example();
    assert Body(h, pass, 0) == FirstLine(h) + "\n";
    assert Body(h, pass, 1) == FirstLine(h) + "\n" + FileLine(h.rows[0], pass) + "\n";
    assert Body(h, pass, 2)
      == FirstLine(h) + "\n" + FileLine(h.rows[0], pass) + "\n" + FileLine(h.rows[1], pass) + "\n";
    assert Filling(175 + 54) == "  ";
  }
}

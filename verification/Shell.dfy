/** Quoting a path for a shell command line, in place in a buffer of fixed size, and what a shell makes of it. */
module Shell {
  import opened Options
  import opened Text

  const APOSTROPHE: char := '\''
  const QUOTED_APOSTROPHE: string := "'\"'\"'"

  // ---------------------------------------------------------------- replacing

  predicate FoundAt(s: string, from: string, i: nat) {
    i + |from| <= |s| && s[i..i + |from|] == from
  }

  /** Found at position i: the text is some i characters, then what is looked for, then the rest. */
  lemma FoundMeans(s: string, from: string, i: nat)
    ensures FoundAt(s, from, i) <==> exists a: string, b: string {:trigger a + from + b} ::
      |a| == i && s == a + from + b
  {
    if FoundAt(s, from, i) {
      assert s == s[..i] + from + s[i + |from|..];
    }
  }

  /** strstr from position i on: where `from` occurs first; the end of s if it does not. */
  function Find(s: string, from: string, i: nat): (p: nat)
    requires i <= |s|
    ensures i <= p <= |s|
    ensures p < |s| ==> FoundAt(s, from, p)
    ensures forall k {:trigger FoundAt(s, from, k)} :: i <= k < p ==> !FoundAt(s, from, k)
    decreases |s| - i
  {
    if i == |s| || FoundAt(s, from, i) then i else Find(s, from, i + 1)
  }

  /** Every leftmost occurrence of `from` that does not overlap an earlier one is replaced. */
  function Replaced(s: string, from: string, to: string, i: nat): string
    requires |from| > 0 && i <= |s|
    decreases |s| - i
  {
    var p := Find(s, from, i);
    if p == |s| then s[i..] else s[i..p] + to + Replaced(s, from, to, p + |from|)
  }

  /** The buffer holds the string s and its terminating zero. */
  ghost predicate Holds(buf: array<char>, s: string)
    reads buf
  {
    |s| < buf.Length && buf[..|s|] == s && buf[|s|] == '\0'
  }

  /** Copies a string with its terminating zero into a buffer. */
  method CopyString(buf: array<char>, s: string)
    requires |s| < buf.Length
    modifies buf
    ensures Holds(buf, s)
  {
    forall i | 0 <= i < |s| {
      buf[i] := s[i];
    }
    buf[|s|] := '\0';
  }

  /**
   * Replaces in place. The result is the length, or -1 and an unchanged buffer if the new string does
   * not fit; a string that would become empty also stays as it is.
   */
  method ReplaceStr(buf: array<char>, len: nat, from: string, to: string) returns (csize: int)
    requires len < buf.Length && Holds(buf, buf[..len]) && |from| > 0
    modifies buf
    ensures var now := Replaced(old(buf[..len]), from, to, 0);
      if |now| >= buf.Length then csize == -1 && buf[..] == old(buf[..])
      else if |now| == 0 then csize == len && buf[..] == old(buf[..])
      else csize == |now| && Holds(buf, now)
  {
    hide Replaced, FoundAt;
    var s := buf[..len];
    var start, dest := 0, "";
    csize := 0;
    assert dest + Replaced(s, from, to, 0) == Replaced(s, from, to, 0);
    var p := Find(s, from, start);
    while p < |s|
      invariant start <= |s| && p == Find(s, from, start) && csize == |dest| < buf.Length
      invariant dest + Replaced(s, from, to, start) == Replaced(s, from, to, 0)
      invariant buf[..] == old(buf[..])
      decreases |s| - start
    {
      ReplacedStep(s, from, to, start, dest);
      var count := p - start;
      csize := csize + count + |to|;
      if csize >= buf.Length {
        return -1;
      }
      dest := dest + s[start..p] + to;
      start := start + count + |from|;
      p := Find(s, from, start);
    }
    ReplacedEnd(s, from, to, start);
    csize := csize + |s| - start;
    dest := dest + s[start..];
    if csize >= buf.Length {
      return -1;
    }
    if csize > 0 {
      CopyString(buf, dest);
    } else {
      csize := len;
    }
  }

  lemma ReplacedStep(s: string, from: string, to: string, i: nat, dest: string)
    requires |from| > 0 && i <= |s| && Find(s, from, i) < |s|
    ensures var p := Find(s, from, i);
      && p + |from| <= |s|
      && dest + Replaced(s, from, to, i) == dest + s[i..p] + to + Replaced(s, from, to, p + |from|)
  {
  }

  lemma ReplacedEnd(s: string, from: string, to: string, i: nat)
    requires |from| > 0 && i <= |s| && Find(s, from, i) == |s|
    ensures Replaced(s, from, to, i) == s[i..]
  {
  }

  /** Replacing in place does what it says exactly if the new string fits and is not the empty rest of something. */
  lemma ReplaceFaithful(s: string, from: string, to: string, size: nat)
    requires |from| > 0 && |s| < size
    ensures var now := Replaced(s, from, to, 0);
      (if |now| >= size || |now| == 0 then s else now) == now <==> |now| < size && (|now| > 0 || |s| == 0)
  {
    var now := Replaced(s, from, to, 0);
    if |now| >= size {
      assert s != now;
    }
  }

  // ---------------------------------------------------------------- quoting

  /** The path between apostrophes, with each of its own apostrophes taken out of them and put in quotation marks. */
  function Escaped(path: string): string
    decreases |path|
  {
    if |path| == 0 then ""
    else (if path[0] == APOSTROPHE then QUOTED_APOSTROPHE else [path[0]]) + Escaped(path[1..])
  }

  function Quoted(path: string): string { "'" + Escaped(path) + "'" }

  lemma FoundChar(s: string, i: nat)
    requires i < |s|
    ensures FoundAt(s, "'", i) <==> s[i] == APOSTROPHE
  {
    assert s[i..i + 1] == [s[i]];
  }

  /** Replacing apostrophes is escaping character by character. */
  lemma {:induction false} ReplacedIsEscaped(s: string, i: nat)
    requires i <= |s|
    ensures Replaced(s, "'", QUOTED_APOSTROPHE, i) == Escaped(s[i..])
    decreases |s| - i
  {
    hide Find, Escaped, FoundAt, Replaced;
    var p := Find(s, "'", i);
    PlainPart(s, i, p);
    if p < |s| {
      FoundChar(s, p);
      EscapedApostrophe(s, p);
      ReplacedIsEscaped(s, p + 1);
      ReplacedStep(s, "'", QUOTED_APOSTROPHE, i, "");
      Regroup(s[i..p], QUOTED_APOSTROPHE, Escaped(s[p + 1..]));
      assert "" + Replaced(s, "'", QUOTED_APOSTROPHE, i) == Replaced(s, "'", QUOTED_APOSTROPHE, i);
      assert "" + s[i..p] == s[i..p];
    } else {
      ReplacedEnd(s, "'", QUOTED_APOSTROPHE, i);
      NothingToEscape(s[p..]);
      assert s[i..p] + s[p..] == s[i..];
    }
  }

  lemma EscapedApostrophe(s: string, p: nat)
    requires p < |s| && s[p] == APOSTROPHE
    ensures Escaped(s[p..]) == QUOTED_APOSTROPHE + Escaped(s[p + 1..])
  {
    assert s[p..][1..] == s[p + 1..];
  }

  lemma {:induction false} PlainPart(s: string, i: nat, p: nat)
    requires i <= p <= |s| && p <= Find(s, "'", i)
    ensures Escaped(s[i..]) == s[i..p] + Escaped(s[p..])
    decreases p - i
  {
    if i == p {
      assert s[i..p] == "";
    } else {
      FoundChar(s, i);
      assert !FoundAt(s, "'", i);
      PlainPart(s, i + 1, p);
      assert s[i..][1..] == s[i + 1..] && s[i..p] == [s[i]] + s[i + 1..p];
    }
  }

  /** What quoting in a buffer of this size leaves in it: the path as it was, escaped and quoted, or only escaped. */
  function LeftBehind(path: string, size: nat): string {
    if |Escaped(path)| >= size then path
    else if |Escaped(path)| + 3 < size then Quoted(path)
    else Escaped(path)
  }

  /** Puts the path between apostrophes in place, if the buffer is long enough; -1 if not even its apostrophes fit. */
  method Path4Shell(path: array<char>, len: nat) returns (rv: int)
    requires len < path.Length && Holds(path, path[..len])
    modifies path
    ensures var s := old(path[..len]);
      if |Escaped(s)| >= path.Length then rv == -1 && path[..] == old(path[..])
      else if |Escaped(s)| + 3 < path.Length then rv == |Quoted(s)| && Holds(path, Quoted(s))
      else rv == |Escaped(s)| && Holds(path, Escaped(s))
    ensures Holds(path, LeftBehind(old(path[..len]), path.Length))
  {
    var s := path[..len];
    rv := len;
    ReplacedIsEscaped(s, 0);
    assert s[0..] == s;
    if exists i :: 0 <= i < len && path[i] == APOSTROPHE {
      EscapedNotEmpty(s);
      rv := ReplaceStr(path, len, "'", QUOTED_APOSTROPHE);
    } else {
      NothingToEscape(s);
    }
    if 0 <= rv < path.Length - 3 {
      var inner := path[..rv];
      CopyString(path, "'" + inner + "'");
      rv := rv + 2;
    }
  }

  lemma EscapedNotEmpty(s: string)
    ensures |s| > 0 ==> |Escaped(s)| > 0
  {
  }

  lemma {:induction false} NothingToEscape(s: string)
    requires forall i :: 0 <= i < |s| ==> s[i] != APOSTROPHE
    ensures Escaped(s) == s
  {
    if |s| > 0 {
      NothingToEscape(s[1..]);
      assert s == [s[0]] + s[1..];
    }
  }

  // ---------------------------------------------------------------- what the shell reads

  datatype Mode = Plain | Single | Double

  /** Characters with a meaning of their own outside any quoting, wherever they are in an argument. */
  predicate Special(c: char) { c in "|&;<>()$`\\ \t\n*?[" }

  /** Characters with a meaning of their own at the beginning of an argument only: a comment, a home directory. */
  predicate SpecialFirst(c: char) { c == '#' || c == '~' }

  /** The argument of a command that a text is; none if the text is empty. */
  function Argument(s: string): Option<string> {
    if |s| == 0 || SpecialFirst(s[0]) then None else Word(s, Plain)
  }

  /**
   * The single word that a text is, by the quoting rules of sections 2.2.2 and 2.2.3 of the POSIX.1-2017
   * Shell Command Language: apostrophes preserve everything up to the next one, quotation marks everything
   * but dollar sign, grave accent, backslash and the closing mark. Texts that need more, and patterns, which
   * can stand for other files, are no single word here.
   */
  function Word(s: string, mode: Mode): Option<string>
    decreases |s|
  {
    if |s| == 0 then (if mode == Plain then Some("") else None)
    else
      var c, rest := s[0], s[1..];
      match mode
      case Plain =>
        if c == APOSTROPHE then Word(rest, Single) else if c == '"' then Word(rest, Double)
        else if Special(c) then None else Then(c, Word(rest, Plain))
      case Single => if c == APOSTROPHE then Word(rest, Plain) else Then(c, Word(rest, Single))
      case Double =>
        if c == '"' then Word(rest, Plain) else if c in "$`\\" then None else Then(c, Word(rest, Double))
  }

  function Then(c: char, w: Option<string>): Option<string> {
    if w.None? then None else Some([c] + w.value)
  }

  /** Inside apostrophes, an escaped path and the closing apostrophe are read as the path. */
  lemma {:induction false} EscapedReads(path: string)
    ensures Word(Escaped(path) + "'", Single) == Some(path)
    decreases |path|
  {
    var text := Escaped(path) + "'";
    if |path| == 0 {
      assert text[1..] == "";
    } else {
      var rest := Escaped(path[1..]) + "'";
      EscapedReads(path[1..]);
      assert path == [path[0]] + path[1..];
      if path[0] == APOSTROPHE {
        assert text == QUOTED_APOSTROPHE + rest;
        ApostropheReads(rest);
      } else {
        assert text[1..] == rest;
      }
    }
  }

  /** An apostrophe between quotation marks, with the apostrophes around it closed and opened again. */
  lemma ApostropheReads(rest: string)
    ensures Word(QUOTED_APOSTROPHE + rest, Single) == Then(APOSTROPHE, Word(rest, Single))
  {
    var t0 := QUOTED_APOSTROPHE + rest;
    var t1, t2, t3, t4 := "\"'\"'" + rest, "'\"'" + rest, "\"'" + rest, "'" + rest;
    assert t0[1..] == t1 && t1[1..] == t2 && t2[1..] == t3 && t3[1..] == t4 && t4[1..] == rest;
    assert Word(t0, Single) == Word(t1, Plain) == Word(t2, Double);
    assert Word(t3, Double) == Word(t4, Plain) == Word(rest, Single);
  }

  /** The same text read outside apostrophes. */
  lemma ApostropheElsewhere(rest: string)
    ensures Word(QUOTED_APOSTROPHE + rest, Plain) == Then('"', Then(APOSTROPHE, Word(rest, Double)))
    ensures Word(QUOTED_APOSTROPHE + rest, Double) == Then(APOSTROPHE, Word("\"'\"'" + rest, Double))
  {
    var t0 := QUOTED_APOSTROPHE + rest;
    var t1, t2, t3, t4 := "\"'\"'" + rest, "'\"'" + rest, "\"'" + rest, "'" + rest;
    assert t0[1..] == t1 && t1[1..] == t2 && t2[1..] == t3 && t3[1..] == t4 && t4[1..] == rest;
    assert Word(t0, Plain) == Word(t1, Single) == Then('"', Word(t2, Single));
    assert Word(t2, Single) == Word(t3, Plain) == Word(t4, Double) == Then(APOSTROPHE, Word(rest, Double));
  }

  /** The quoting round trip: whatever the path, its quoted form is one word, and that word is the path. */
  lemma QuotedReads(path: string)
    ensures Argument(Quoted(path)) == Some(path)
  {
    EscapedReads(path);
    assert Quoted(path)[1..] == Escaped(path) + "'";
  }

  /** A path that the shell takes literally without any quoting. */
  predicate Harmless(path: string) {
    |path| > 0 && !SpecialFirst(path[0]) && Literal(path)
  }

  predicate Literal(path: string) {
    forall i :: 0 <= i < |path| ==> path[i] != APOSTROPHE && path[i] != '"' && !Special(path[i])
  }

  /** No word read from an escaped text begins with two quotation marks. */
  predicate Shape(w: Option<string>) {
    w.None? || w.value == "" || w.value[0] != '"' || (|w.value| > 1 && w.value[1] == APOSTROPHE)
  }

  lemma {:induction false} ReadShapes(q: string)
    ensures Shape(Word(Escaped(q), Plain)) && Shape(Word(Escaped(q), Double))
    ensures |q| > 0 && q[0] == APOSTROPHE ==>
      var p, d := Word(Escaped(q), Plain), Word(Escaped(q), Double);
      (p.Some? ==> |p.value| > 0 && p.value[0] == '"') && (d.Some? ==> |d.value| > 0 && d.value[0] == APOSTROPHE)
    decreases |q|
  {
    if |q| > 0 {
      ReadShapes(q[1..]);
      var rest := Escaped(q[1..]);
      if q[0] == APOSTROPHE {
        hide Word;
        ApostropheElsewhere(rest);
      } else {
        assert Escaped(q)[1..] == rest;
      }
    }
  }

  /** Without quotes around it an escaped path is read as the path exactly if it has nothing special in it. */
  lemma {:induction false} BareReads(path: string)
    ensures Word(Escaped(path), Plain) == Some(path) <==> Literal(path)
    decreases |path|
  {
    if |path| > 0 {
      var c, q := path[0], path[1..];
      assert path == [c] + q;
      BareReads(q);
      ReadShapes(path);
      ReadShapes(q);
      assert Literal(path) <==> c != APOSTROPHE && c != '"' && !Special(c) && Literal(q) by {
        assert forall i :: 0 <= i < |q| ==> q[i] == path[i + 1];
      }
      if c != APOSTROPHE {
        assert Escaped(path)[1..] == Escaped(q);
      }
    }
  }

  /** No word read from a text is longer than the text; one as long has nothing quoted in it. */
  lemma {:induction false} WordIsShorter(s: string, mode: Mode)
    ensures Word(s, mode).Some? ==> |Word(s, mode).value| <= |s|
    ensures Word(s, mode).Some? && mode == Plain && |Word(s, mode).value| == |s| ==> Literal(s)
    decreases |s|
  {
    if |s| > 0 {
      var rest := s[1..];
      WordIsShorter(rest, Plain);
      WordIsShorter(rest, Single);
      WordIsShorter(rest, Double);
      assert Literal(rest) && s[0] != APOSTROPHE && s[0] != '"' && !Special(s[0]) ==> Literal(s);
    }
  }

  /** A text is read as itself exactly if it has nothing special in it. */
  lemma PlainReads(path: string)
    ensures Word(path, Plain) == Some(path) <==> Literal(path)
  {
    WordIsShorter(path, Plain);
    if Literal(path) {
      NothingToEscape(path);
      BareReads(path);
    }
  }

  /**
   * What the call leaves is read as the path exactly if there was room for the quotes or no need for them,
   * also where the escaped path does not fit and nothing is changed.
   */
  lemma QuotingWorksIff(path: string, size: nat)
    ensures Argument(LeftBehind(path, size)) == Some(path) <==> |Escaped(path)| + 3 < size || Harmless(path)
  {
    QuotedReads(path);
    BareReads(path);
    PlainReads(path);
  }

  /** Which paths need no quotes, character by character. */
  lemma HarmlessIff(path: string)
    ensures Harmless(path)
      <==> (&& |path| > 0 && path[0] != '#' && path[0] != '~'
            && forall i :: 0 <= i < |path| ==> path[i] !in "|&;<>()$`\\\"' \t\n*?[")
  {
  }

  function Letters(n: nat): (s: string)
    ensures |s| == n
  {
    seq(n, _ => 'a')
  }

  /**
   * For every size of the buffer there is a path whose quotes would just fit and are left out, so that its
   * blank splits it.
   */
  lemma UnquotedAtTheEdge(size: nat)
    requires size > 3
    ensures var path := " " + Letters(size - 4);
      && |Quoted(path)| < size && Argument(Quoted(path)) == Some(path)
      && LeftBehind(path, size) == path && Argument(path) == None
  {
    var path := " " + Letters(size - 4);
    NothingToEscape(path);
    QuotedReads(path);
  }

  lemma NothingLeft()
    ensures Replaced("a", "a", "", 0) == ""
  {
    assert Find("a", "a", 0) == 0;
    assert Find("a", "a", 1) == 1;
  }

  /** An input: replacing the only letter of a text by nothing leaves the text as it was. */
  method EmptiedStays(size: nat) returns (left: string, csize: int)
    requires size > 1
    ensures left == "a" && csize == 1 && Replaced("a", "a", "", 0) == ""
  {
    hide Replaced, Find;
    NothingLeft();
    var buf := new char[size](_ => '\0');
    CopyString(buf, "a");
    assert buf[..1] == "a";
    csize := ReplaceStr(buf, 1, "a", "");
    left := buf[..1];
  }
}

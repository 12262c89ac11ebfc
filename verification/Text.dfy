/** The C library's view of text lines: fixed-width fields, decimal numbers, tokens and line reading. */
module Text {

  /** Size of the line buffer; one place is for the terminating zero. */
  const PATH_MAX: nat := 4096

  const NEWLINE := '\n'

  predicate IsBlank(c: char) { c == ' ' || c == '\n' || c == '\t' || c == '\r' || c == '\U{000C}' || c == '\U{000B}' }

  predicate IsWord(s: string) { |s| > 0 && forall i :: 0 <= i < |s| ==> !IsBlank(s[i]) }

  predicate OneLine(s: string) { forall i :: 0 <= i < |s| ==> s[i] != NEWLINE }

  /** Concatenation is associative. */
  lemma Regroup(a: string, b: string, c: string)
    ensures a + b + c == a + (b + c)
  {
  }

  // ---------------------------------------------------------------- numbers

  function DigitChar(d: nat): char
    requires d < 10
  {
    "0123456789"[d]
  }

  predicate IsDigit(c: char) { '0' <= c <= '9' }

  function DigitValue(c: char): (d: nat)
    requires IsDigit(c)
    ensures d < 10
  {
    (c as int) - ('0' as int)
  }

  lemma DigitRound(d: nat)
    requires d < 10
    ensures IsDigit(DigitChar(d)) && DigitValue(DigitChar(d)) == d && !IsBlank(DigitChar(d))
  {
  }

  /** What "%ld" prints for a number that is not negative. */
  function Decimal(n: nat): (s: string)
    ensures |s| > 0
  {
    if n < 10 then [DigitChar(n)] else Decimal(n / 10) + [DigitChar(n % 10)]
  }

  /** Digits only, and none in front that says nothing. */
  lemma {:induction false} DecimalPlain(n: nat)
    ensures var s := Decimal(n);
      && (forall i :: 0 <= i < |s| ==> '0' <= s[i] <= '9') && (n >= 10 ==> |s| > 1) && (n > 0 ==> s[0] != '0')
  {
    if n >= 10 {
      DecimalPlain(n / 10);
    }
  }

  /** The characters between words, by their codes. */
  lemma BlanksAre(c: char)
    ensures IsBlank(c) <==> c as int in {9, 10, 11, 12, 13, 32}
  {
  }

  /** What atol makes of a text: the value of its leading digits. */
  function Atol(s: string): nat { Value(s, DigitCount(s)) }

  function DigitCount(s: string): (n: nat)
    ensures n <= |s|
  {
    if |s| == 0 || !IsDigit(s[0]) then 0 else 1 + DigitCount(s[1..])
  }

  function Value(s: string, n: nat): nat
    requires n <= |s|
  {
    if n == 0 then 0
    else 10 * Value(s, n - 1) + if IsDigit(s[n - 1]) then DigitValue(s[n - 1]) else 0
  }

  /** The leading digits: no more and no fewer. */
  lemma {:induction false} DigitCountMeans(s: string)
    ensures var n := DigitCount(s);
      && n <= |s| && (forall i :: 0 <= i < n ==> '0' <= s[i] <= '9') && (n < |s| ==> !('0' <= s[n] <= '9'))
  {
    if |s| > 0 && IsDigit(s[0]) {
      DigitCountMeans(s[1..]);
      var n := DigitCount(s);
      assert forall i :: 1 <= i < n ==> s[i] == s[1..][i - 1];
    }
  }

  lemma {:induction false} ValuePrefix(a: string, b: string, n: nat)
    requires n <= |a| <= |b| && a == b[..|a|]
    ensures Value(a, n) == Value(b, n)
  {
    if n > 0 {
      ValuePrefix(a, b, n - 1);
      assert a[n - 1] == b[..|a|][n - 1];
    }
  }

  lemma {:induction false} DecimalDigits(n: nat)
    ensures forall i :: 0 <= i < |Decimal(n)| ==> IsDigit(Decimal(n)[i])
    ensures Value(Decimal(n), |Decimal(n)|) == n
  {
    DigitRound(n % 10);
    if n < 10 {
      assert Value(Decimal(n), 0) == 0;
    } else {
      DecimalDigits(n / 10);
      var high := Decimal(n / 10);
      ValuePrefix(high, Decimal(n), |high|);
      assert 10 * (n / 10) + n % 10 == n;
    }
  }

  lemma {:induction false} AllDigits(s: string)
    requires forall i :: 0 <= i < |s| ==> IsDigit(s[i])
    ensures DigitCount(s) == |s|
  {
    if |s| > 0 {
      AllDigits(s[1..]);
    }
  }

  /** Reading a printed number gives it back. */
  lemma AtolRound(n: nat)
    ensures Atol(Decimal(n)) == n && IsWord(Decimal(n)) && OneLine(Decimal(n))
  {
    DecimalDigits(n);
    AllDigits(Decimal(n));
  }

  // ---------------------------------------------------------------- fields

  function Blanks(n: nat): (s: string)
    ensures |s| == n
  {
    seq(n, _ => ' ')
  }

  /** "%*s": right-aligned in at least w columns. */
  function Padded(w: nat, s: string): (r: string)
    ensures |r| == if |s| < w then w else |s|
  {
    Blanks(if |s| < w then w - |s| else 0) + s
  }

  // ---------------------------------------------------------------- tokens

  function DropBlanks(s: string): (r: string)
    ensures |r| <= |s|
  {
    if |s| > 0 && IsBlank(s[0]) then DropBlanks(s[1..]) else s
  }

  function WordLength(s: string): (n: nat)
    ensures n <= |s|
  {
    if |s| == 0 || IsBlank(s[0]) then 0 else 1 + WordLength(s[1..])
  }

  /** The next token of strtok with blanks as delimiters, and what is left behind the blank that ends it. */
  datatype Token = Token(word: string, rest: string)

  function Strtok(s: string): (t: Token)
    ensures |t.word| > 0 ==> |t.rest| < |s|
  {
    var p := DropBlanks(s);
    var n := WordLength(p);
    Token(p[..n], if n < |p| then p[n + 1..] else [])
  }

  lemma {:induction false} DropPadding(n: nat, s: string)
    requires |s| > 0 && !IsBlank(s[0])
    ensures DropBlanks(Blanks(n) + s) == s
  {
    if n == 0 {
      assert Blanks(0) + s == s;
    } else {
      var t := Blanks(n) + s;
      assert t[0] == ' ' && t[1..] == Blanks(n - 1) + s;
      DropPadding(n - 1, s);
    }
  }

  lemma {:induction false} WordEnds(w: string, s: string)
    requires forall i :: 0 <= i < |w| ==> !IsBlank(w[i])
    requires |s| == 0 || IsBlank(s[0])
    ensures WordLength(w + s) == |w|
  {
    if |w| == 0 {
      assert w + s == s;
    } else {
      assert (w + s)[1..] == w[1..] + s;
      WordEnds(w[1..], s);
    }
  }

  /** A padded word followed by a blank is the next token; the blank is swallowed. */
  lemma NextToken(n: nat, w: string, c: char, rest: string)
    requires IsWord(w) && IsBlank(c)
    ensures Strtok(Blanks(n) + w + [c] + rest) == Token(w, rest)
  {
    var tail := [c] + rest;
    assert Blanks(n) + w + [c] + rest == Blanks(n) + (w + tail);
    DropPadding(n, w + tail);
    WordEnds(w, tail);
    assert (w + tail)[..|w|] == w && (w + tail)[|w| + 1..] == rest;
  }

  lemma LastToken(n: nat, w: string)
    requires IsWord(w)
    ensures Strtok(Blanks(n) + w) == Token(w, [])
  {
    DropPadding(n, w);
    WordEnds(w, []);
    assert w + [] == w && w[..|w|] == w;
  }

  /** The size of the loader's token array. */
  const TOKENS_MAX: nat := 5

  /** Tokens of a line from the n-th on; with a limit, the last one is the whole rest of the line. */
  function Tokens(s: string, limit: nat, n: nat): seq<string>
    decreases |s|
  {
    if n > TOKENS_MAX then []
    else if limit > 0 && n > 0 && n >= limit - 1 then (if |s| == 0 then [] else [s])
    else
      var t := Strtok(s);
      if |t.word| == 0 then [] else [t.word] + Tokens(t.rest, limit, n + 1)
  }

  lemma TokensFrom(before: seq<string>, s: string, limit: nat, n: nat)
    ensures var all, t := before + Tokens(s, limit, n), Strtok(s);
      if n > TOKENS_MAX then all == before
      else if limit > 0 && n > 0 && n >= limit - 1 then all == if |s| == 0 then before else before + [s]
      else if |t.word| == 0 then all == before
      else all == (before + [t.word]) + Tokens(t.rest, limit, n + 1)
  {
    hide Strtok;
  }

  /** A limit beyond the array counts as none. */
  function Limit(limit: nat): nat { if limit > TOKENS_MAX then 0 else limit }

  /** Splits a line token by token. The array has room for five tokens, the loop goes on until it has six. */
  method Split(line: string, tcount: nat) returns (tokens: seq<string>)
    ensures tokens == Tokens(line, Limit(tcount), 0)
  {
    hide Tokens, Strtok;
    var limit := Limit(tcount);
    tokens := [];
    var left, n := line, 0;
    assert [] + Tokens(line, limit, 0) == Tokens(line, limit, 0);
    while n <= TOKENS_MAX
      invariant n <= TOKENS_MAX + 1 && tokens + Tokens(left, limit, n) == Tokens(line, limit, 0)
      decreases TOKENS_MAX + 1 - n
    {
      TokensFrom(tokens, left, limit, n);
      if limit > 0 && n > 0 && n >= limit - 1 {
        return if |left| == 0 then tokens else tokens + [left];
      }
      var t := Strtok(left);
      if |t.word| == 0 {
        return;
      }
      tokens := tokens + [t.word];
      left := t.rest;
      n := n + 1;
    }
    TokensFrom(tokens, left, limit, n);
  }

  /** All words of a line. */
  function Words(s: string): seq<string>
    decreases |s|
  {
    var t := Strtok(s);
    if |t.word| == 0 then [] else [t.word] + Words(t.rest)
  }

  predicate AllBlank(s: string) { forall i :: 0 <= i < |s| ==> IsBlank(s[i]) }

  /** Gaps and words in turn. */
  function Weave(gaps: seq<string>, words: seq<string>): string
    requires |gaps| == |words| + 1
    decreases |words|
  {
    if |words| == 0 then gaps[0] else gaps[0] + words[0] + Weave(gaps[1..], words[1..])
  }

  lemma {:induction false} DropBlanksMeans(s: string)
    ensures var p := DropBlanks(s);
      && |p| <= |s| && s[|s| - |p|..] == p && AllBlank(s[..|s| - |p|]) && (|p| > 0 ==> !IsBlank(p[0]))
  {
    if |s| > 0 && IsBlank(s[0]) {
      DropBlanksMeans(s[1..]);
      var n := |s| - |DropBlanks(s)|;
      assert s[..n] == [s[0]] + s[1..][..n - 1];
    }
  }

  lemma {:induction false} WordLengthMeans(s: string)
    ensures var n := WordLength(s);
      && n <= |s| && (forall i :: 0 <= i < n ==> !IsBlank(s[i])) && (n < |s| ==> IsBlank(s[n]))
  {
    if |s| > 0 && !IsBlank(s[0]) {
      WordLengthMeans(s[1..]);
      var n := WordLength(s);
      assert forall i :: 1 <= i < n ==> s[i] == s[1..][i - 1];
    }
  }

  /** A token, the blanks in front of it and the one that ends it. */
  lemma StrtokMeans(s: string) returns (lead: string, end: string)
    ensures var t := Strtok(s);
      && (|t.word| == 0 ==> AllBlank(s))
      && (|t.word| > 0 ==> IsWord(t.word) && AllBlank(lead) && AllBlank(end) && (|end| > 0 || |t.rest| == 0))
      && (|t.word| > 0 ==> s == lead + (t.word + (end + t.rest)))
  {
    hide IsBlank, DropBlanks, WordLength, IsWord, AllBlank;
    var p := DropBlanks(s);
    var n := WordLength(p);
    lead, end := s[..|s| - |p|], if n < |p| then [p[n]] else [];
    Lead(s);
    FrontWord(p);
    Cut(p, n, end);
    Regroup(lead, p[..n], end + Strtok(s).rest);
  }

  /** What DropBlanks leaves out. */
  lemma Lead(s: string)
    ensures var p := DropBlanks(s);
      && |p| <= |s| && s == s[..|s| - |p|] + p && AllBlank(s[..|s| - |p|]) && (|p| > 0 ==> !IsBlank(p[0]))
      && (|p| == 0 ==> AllBlank(s))
  {
    hide IsBlank, DropBlanks;
    DropBlanksMeans(s);
    assert |DropBlanks(s)| == 0 ==> s[..|s|] == s;
  }

  /** The word at the front, and the blank that ends it. */
  lemma FrontWord(p: string)
    requires |p| > 0 ==> !IsBlank(p[0])
    ensures var n := WordLength(p);
      n <= |p| && (|p| > 0 ==> n > 0 && IsWord(p[..n])) && AllBlank(if n < |p| then [p[n]] else [])
  {
    hide IsBlank, WordLength;
    WordLengthMeans(p);
  }

  lemma Cut(p: string, n: nat, end: string)
    requires n <= |p| && end == if n < |p| then [p[n]] else []
    ensures p == p[..n] + (end + if n < |p| then p[n + 1..] else [])
  {
  }

  /** The words of a line: pieces without blanks; before, between and behind them are blanks and nothing else. */
  lemma {:induction false} WordsMean(s: string) returns (gaps: seq<string>)
    ensures var words := Words(s);
      && |gaps| == |words| + 1 && s == Weave(gaps, words)
      && (forall i {:trigger words[i]} :: 0 <= i < |words| ==> IsWord(words[i]))
      && (forall i {:trigger gaps[i]} :: 0 <= i < |gaps| ==> AllBlank(gaps[i]) && (0 < i < |words| ==> |gaps[i]| > 0))
    decreases |s|
  {
    hide Strtok, IsWord;
    var t := Strtok(s);
    var lead, end := StrtokMeans(s);
    gaps := [s];
    if |t.word| > 0 {
      var more := WordsMean(t.rest);
      var words := Words(t.rest);
      NoWords();
      FirstGap(end, more, words);
      gaps := [lead] + ([end + more[0]] + more[1..]);
      Woven(lead, t.word, gaps[1..], words);
      assert ([t.word] + words)[1..] == words;
    }
  }

  lemma Woven(lead: string, word: string, gaps: seq<string>, words: seq<string>)
    requires |gaps| == |words| + 1
    ensures Weave([lead] + gaps, [word] + words) == lead + (word + Weave(gaps, words))
  {
    Regroup(lead, word, Weave(gaps, words));
    assert ([lead] + gaps)[1..] == gaps && ([word] + words)[1..] == words;
  }

  lemma NoWords()
    ensures Words("") == []
  {
  }

  lemma FirstGap(d: string, gaps: seq<string>, words: seq<string>)
    requires |gaps| == |words| + 1
    ensures Weave([d + gaps[0]] + gaps[1..], words) == d + Weave(gaps, words)
  {
    var g := [d + gaps[0]] + gaps[1..];
    assert g[1..] == gaps[1..];
    if |words| > 0 {
      Regroup(d, gaps[0], words[0]);
      Regroup(d, gaps[0] + words[0], Weave(gaps[1..], words[1..]));
    }
  }

  /** Without a limit: the words of the line, but no more than one beyond the array. */
  lemma {:induction false} TokensAreWords(s: string, n: nat)
    requires n <= TOKENS_MAX + 1
    ensures var all, k := Words(s), TOKENS_MAX + 1 - n;
      Tokens(s, 0, n) == if |all| <= k then all else all[..k]
    decreases |s|
  {
    hide Strtok;
    var t := Strtok(s);
    if n <= TOKENS_MAX && |t.word| > 0 {
      TokensAreWords(t.rest, n + 1);
      var rest, k := Words(t.rest), TOKENS_MAX - n;
      if |rest| > k {
        assert ([t.word] + rest)[..k + 1] == [t.word] + rest[..k];
      }
    }
  }

  /** A limit of more than five is no limit: all words of the line, up to six. */
  lemma SplitsAll(line: string, tcount: nat)
    requires tcount == 0 || tcount > 5
    ensures var words := Words(line);
      Tokens(line, Limit(tcount), 0) == if |words| <= 6 then words else words[..6]
  {
    TokensAreWords(line, 0);
  }

  lemma {:induction false} LimitedTokens(s: string, limit: nat, n: nat)
    requires 0 < limit <= TOKENS_MAX && n <= limit + 1
    ensures n == 0 ==> |Tokens(s, limit, n)| <= if limit == 1 then 2 else limit
    ensures 0 < n ==> |Tokens(s, limit, n)| <= if n < limit then limit - n else 1
    decreases |s|
  {
    hide Strtok;
    if n <= TOKENS_MAX && !(n > 0 && n >= limit - 1) && |Strtok(s).word| > 0 {
      LimitedTokens(Strtok(s).rest, limit, n + 1);
    }
  }

  /** The loop writes past its array exactly if it has no limit and the line has more words than that has places. */
  lemma OverrunsIff(line: string, tcount: nat)
    ensures |Tokens(line, Limit(tcount), 0)| > TOKENS_MAX <==> Limit(tcount) == 0 && |Words(line)| > TOKENS_MAX
  {
    hide Tokens, Words;
    if Limit(tcount) == 0 {
      TokensAreWords(line, 0);
    } else {
      LimitedTokens(line, Limit(tcount), 0);
    }
  }

  // ---------------------------------------------------------------- lines

  /** Length of the line that fgets reads at the front of s with room for `max` characters. */
  function LineLength(s: string, max: nat): (n: nat)
    ensures n <= |s| && n <= max
  {
    if |s| == 0 || max == 0 then 0
    else if s[0] == NEWLINE then 1
    else 1 + LineLength(s[1..], max - 1)
  }

  /** Up to the first newline and with it, or as much as there is room for. */
  lemma {:induction false} LineLengthMeans(s: string, max: nat)
    ensures var n := LineLength(s, max);
      && (forall i :: 0 <= i < n - 1 ==> s[i] != NEWLINE)
      && (n < |s| && n < max ==> n > 0 && s[n - 1] == NEWLINE)
  {
    if |s| > 0 && max > 0 && s[0] != NEWLINE {
      LineLengthMeans(s[1..], max - 1);
      var n := LineLength(s, max);
      assert forall i :: 1 <= i < n ==> s[i] == s[1..][i - 1];
    }
  }

  /** fgets: up to and including a newline, at most as many characters as the buffer holds. */
  function ReadLine(s: string): string { s[..LineLength(s, PATH_MAX - 1)] }

  function Chomp(line: string): string {
    if |line| > 0 && line[|line| - 1] == NEWLINE then line[..|line| - 1] else line
  }

  lemma {:induction false} LineEnds(w: string, s: string, max: nat)
    requires OneLine(w) && |w| < max
    ensures LineLength(w + [NEWLINE] + s, max) == |w| + 1
  {
    if |w| == 0 {
      assert (w + [NEWLINE] + s)[0] == NEWLINE;
    } else {
      assert (w + [NEWLINE] + s)[1..] == w[1..] + [NEWLINE] + s;
      LineEnds(w[1..], s, max - 1);
    }
  }

  lemma {:induction false} TextEnds(w: string, max: nat)
    requires OneLine(w) && |w| <= max
    ensures LineLength(w, max) == |w|
  {
    if |w| > 0 {
      TextEnds(w[1..], max - 1);
    }
  }

  /** Reading a line that fits the buffer. */
  lemma ReadsLine(w: string, s: string)
    requires OneLine(w) && |w| + 1 < PATH_MAX
    ensures ReadLine(w + [NEWLINE] + s) == w + [NEWLINE] && Chomp(w + [NEWLINE]) == w
    ensures (w + [NEWLINE] + s)[|w| + 1..] == s
  {
    LineEnds(w, s, PATH_MAX - 1);
  }
}

/** What the statement splitter does with whole texts. */
module SqlTexts {
  // Together these say where every text is cut, without a scanner's modes or tokens.
  import opened SqlSplit

  /** The segments of a text, and whether it ends outside quotes and comments. */
  datatype Scan = Scan(segments: seq<string>, final: Mode)

  function ScanOf(mode: Mode, current: string, s: string): Scan {
    Scan(Segments(mode, current, s), FinalMode(mode, s))
  }

  lemma Taken(mode: Mode, current: string, s: string)
    requires s != "" && !Ends(mode, s)
    ensures var n := Token(mode, s); ScanOf(mode, current, s) == ScanOf(After(mode, s), current + s[..n], s[n..])
  {
    TokenTaken(mode, current, s);
  }

  lemma TakenOne(mode: Mode, current: string, c: char, rest: string)
    requires !Ends(mode, [c] + rest) && Token(mode, [c] + rest) == 1
    ensures ScanOf(mode, current, [c] + rest) == ScanOf(After(mode, [c] + rest), current + [c], rest)
  {
    hide ScanOf, Token, After;
    var s := [c] + rest;
    Taken(mode, current, s);
    assert s[..1] == [c] && s[1..] == rest;
  }

  lemma TakenTwo(mode: Mode, current: string, c: char, d: char, rest: string)
    requires !Ends(mode, [c, d] + rest) && Token(mode, [c, d] + rest) == 2
    ensures ScanOf(mode, current, [c, d] + rest) == ScanOf(After(mode, [c, d] + rest), current + [c, d], rest)
  {
    hide ScanOf, Token, After;
    var s := [c, d] + rest;
    Taken(mode, current, s);
    assert s[..2] == [c, d] && s[2..] == rest;
  }

  predicate StartsWith(s: string, c: char) { s != "" && s[0] == c }

  /** A semicolon outside quotes and comments cuts. */
  lemma SemicolonCuts(current: string, rest: string)
    ensures var next := ScanOf(Normal, "", rest);
            ScanOf(Normal, current, ";" + rest) == Scan([current] + next.segments, next.final)
  {
    EndSplits(current, ";" + rest);
    assert (";" + rest)[1..] == rest;
    hide Segments, FinalMode;
  }

  /** Any other character that opens neither a quote nor a comment is kept. */
  lemma PlainCharacterIsKept(current: string, c: char, rest: string)
    requires c != ';' && c != '\'' && c != '"' && c != '`'
    requires !(c == '-' && StartsWith(rest, '-')) && !(c == '/' && StartsWith(rest, '*'))
    ensures ScanOf(Normal, current, [c] + rest) == ScanOf(Normal, current + [c], rest)
  {
    assert |rest| > 0 ==> ([c] + rest)[1] == rest[0];
    TakenOne(Normal, current, c, rest);
  }

  lemma {:induction false} RestOfLine(current: string, c: string, rest: string)
    requires '\n' !in c
    ensures ScanOf(LineComment, current, c + "\n" + rest) == ScanOf(Normal, current + c + "\n", rest)
    decreases |c|
  {
    hide ScanOf;
    if c == "" {
      assert c + "\n" + rest == ['\n'] + rest && current + c == current;
      TakenOne(LineComment, current, '\n', rest);
    } else {
      var tail := c[1..] + "\n" + rest;
      assert c + "\n" + rest == [c[0]] + tail && c == [c[0]] + c[1..];
      TakenOne(LineComment, current, c[0], tail);
      RestOfLine(current + [c[0]], c[1..], rest);
      assert current + [c[0]] + c[1..] + "\n" == current + c + "\n";
    }
  }

  /** Two dashes hide everything to the end of their line. */
  lemma LineCommentHides(current: string, c: string, rest: string)
    requires '\n' !in c
    ensures ScanOf(Normal, current, "--" + c + "\n" + rest) == ScanOf(Normal, current + "--" + c + "\n", rest)
  {
    hide ScanOf;
    assert "--" + c + "\n" + rest == ['-', '-'] + (c + "\n" + rest);
    TakenTwo(Normal, current, '-', '-', c + "\n" + rest);
    RestOfLine(current + "--", c, rest);
  }

  lemma {:induction false} LastLine(current: string, c: string)
    requires '\n' !in c
    ensures ScanOf(LineComment, current, c) == Scan([current + c], LineComment)
    decreases |c|
  {
    if c == "" {
      assert current + c == current;
    } else {
      assert c == [c[0]] + c[1..];
      TakenOne(LineComment, current, c[0], c[1..]);
      hide ScanOf;
      LastLine(current + [c[0]], c[1..]);
      assert current + [c[0]] + c[1..] == current + c;
    }
  }

  /** Or to the end of the text, which may end there. */
  lemma LineCommentMayEnd(current: string, c: string)
    requires '\n' !in c
    ensures ScanOf(Normal, current, "--" + c) == Scan([current + "--" + c], LineComment)
  {
    hide ScanOf;
    assert "--" + c == ['-', '-'] + c;
    TakenTwo(Normal, current, '-', '-', c);
    LastLine(current + "--", c);
  }

  /** No star with a slash behind it. */
  ghost predicate NoClose(c: string) { forall i :: 0 <= i < |c| - 1 && c[i] == '*' ==> c[i + 1] != '/' }

  lemma NoCloseTail(c: string)
    requires NoClose(c) && c != ""
    ensures NoClose(c[1..]) && !(c[0] == '*' && StartsWith(c[1..], '/'))
  {
    assert forall i :: 0 <= i < |c[1..]| ==> c[1..][i] == c[i + 1];
  }

  lemma {:induction false} InsideComment(current: string, c: string, rest: string)
    requires NoClose(c)
    ensures ScanOf(BlockComment, current, c + "*/" + rest) == ScanOf(Normal, current + c + "*/", rest)
    decreases |c|
  {
    hide ScanOf;
    if c == "" {
      assert c + "*/" + rest == ['*', '/'] + rest && current + c == current;
      TakenTwo(BlockComment, current, '*', '/', rest);
    } else {
      var tail := c[1..] + "*/" + rest;
      assert c + "*/" + rest == [c[0]] + tail && ([c[0]] + tail)[1] == tail[0];
      NoCloseTail(c);
      TakenOne(BlockComment, current, c[0], tail);
      InsideComment(current + [c[0]], c[1..], rest);
      assert current + [c[0]] + c[1..] == current + c;
    }
  }

  /** A slash and a star hide everything up to the first star and slash behind them. */
  lemma BlockCommentHides(current: string, c: string, rest: string)
    requires NoClose(c)
    ensures ScanOf(Normal, current, "/*" + c + "*/" + rest) == ScanOf(Normal, current + "/*" + c + "*/", rest)
  {
    hide ScanOf;
    assert "/*" + c + "*/" + rest == ['/', '*'] + (c + "*/" + rest);
    TakenTwo(Normal, current, '/', '*', c + "*/" + rest);
    InsideComment(current + "/*", c, rest);
  }

  lemma {:induction false} OpenComment(c: string)
    requires NoClose(c)
    ensures FinalMode(BlockComment, c) == BlockComment
    decreases |c|
  {
    if c != "" {
      NoCloseTail(c);
      assert |c| > 1 ==> c[1..][0] == c[1];
      OpenComment(c[1..]);
    }
  }

  /** Without them the text ends inside the comment. */
  lemma BlockCommentMustClose(c: string)
    requires NoClose(c)
    ensures FinalMode(Normal, "/*" + c) == BlockComment
  {
    var s := "/*" + c;
    assert s[2..] == c && s[0] == '/' && s[1] == '*';
    OpenComment(c);
    EndLater(Normal, s);
  }

  predicate IsQuoteMark(q: char) { q == '\'' || q == '"' || q == '`' }

  /** Between quotes a backslash hides the next character, whatever it is. */
  lemma EscapeHides(q: char, current: string, x: char, rest: string)
    ensures ScanOf(Quoted(q), current, ['\\', x] + rest) == ScanOf(Quoted(q), current + ['\\', x], rest)
  {
    TakenTwo(Quoted(q), current, '\\', x, rest);
  }

  /** A doubled quote does not close. */
  lemma DoubledQuoteHides(q: char, current: string, rest: string)
    requires IsQuoteMark(q)
    ensures ScanOf(Quoted(q), current, [q, q] + rest) == ScanOf(Quoted(q), current + [q, q], rest)
  {
    TakenTwo(Quoted(q), current, q, q, rest);
  }

  /** Any other character between quotes, a semicolon included, is kept. */
  lemma QuotedCharacterIsKept(q: char, current: string, c: char, rest: string)
    requires c != q && c != '\\'
    ensures ScanOf(Quoted(q), current, [c] + rest) == ScanOf(Quoted(q), current + [c], rest)
  {
    TakenOne(Quoted(q), current, c, rest);
  }

  lemma QuoteCloses(q: char, current: string, rest: string)
    requires IsQuoteMark(q) && !StartsWith(rest, q)
    ensures ScanOf(Quoted(q), current, [q] + rest) == ScanOf(Normal, current + [q], rest)
  {
    assert |rest| > 0 ==> ([q] + rest)[1] == rest[0];
    TakenOne(Quoted(q), current, q, rest);
  }

  lemma {:induction false} InsideQuotes(q: char, current: string, c: string, rest: string)
    requires IsQuoteMark(q) && q !in c && '\\' !in c && !StartsWith(rest, q)
    ensures ScanOf(Quoted(q), current, c + [q] + rest) == ScanOf(Normal, current + c + [q], rest)
    decreases |c|
  {
    hide ScanOf;
    if c == "" {
      assert c + [q] + rest == [q] + rest && current + c == current;
      QuoteCloses(q, current, rest);
    } else {
      assert c + [q] + rest == [c[0]] + (c[1..] + [q] + rest);
      QuotedCharacterIsKept(q, current, c[0], c[1..] + [q] + rest);
      InsideQuotes(q, current + [c[0]], c[1..], rest);
      assert current + [c[0]] + c[1..] == current + c;
    }
  }

  /** A quote hides everything up to the next one of its kind. */
  lemma QuotesHide(q: char, current: string, c: string, rest: string)
    requires IsQuoteMark(q) && q !in c && '\\' !in c && !StartsWith(rest, q)
    ensures ScanOf(Normal, current, [q] + c + [q] + rest) == ScanOf(Normal, current + [q] + c + [q], rest)
  {
    hide ScanOf;
    assert [q] + c + [q] + rest == [q] + (c + [q] + rest);
    TakenOne(Normal, current, q, c + [q] + rest);
    InsideQuotes(q, current + [q], c, rest);
  }

  lemma {:induction false} OpenQuote(q: char, c: string)
    requires IsQuoteMark(q) && q !in c && '\\' !in c
    ensures FinalMode(Quoted(q), c) == Quoted(q)
    decreases |c|
  {
    if c != "" {
      assert c[0] in c;
      OpenQuote(q, c[1..]);
    }
  }

  /** Without that one the text ends inside the quotes. */
  lemma QuoteMustClose(q: char, c: string)
    requires IsQuoteMark(q) && q !in c && '\\' !in c
    ensures FinalMode(Normal, [q] + c) == Quoted(q)
  {
    var s := [q] + c;
    assert s[1..] == c;
    OpenQuote(q, c);
    EndLater(Normal, s);
  }

  /** What is trimmed from a statement's ends: the white space and line ends of ECMAScript, and nothing else. */
  lemma TrimmedExactly(c: char)
    ensures Trim([c] + "x" + [c]) == "x" <==>
            || c == '\t' || c == '\n' || c as int == 0x0B || c as int == 0x0C || c == '\r' || c == ' '
            || c as int == 0xA0 || c as int == 0x1680 || 0x2000 <= c as int <= 0x200A || c as int == 0x2028
            || c as int == 0x2029 || c as int == 0x202F || c as int == 0x205F || c as int == 0x3000
            || c as int == 0xFEFF
  {
    var s := [c] + "x" + [c];
    assert s[1..] == "x" + [c];
    assert !IsSpace('x');
    assert ("x" + [c])[..1] == "x";
    if IsSpace(c) {
      assert TrimStart(s) == TrimStart("x" + [c]) == "x" + [c];
      assert TrimEnd("x" + [c]) == TrimEnd("x") == "x";
    } else {
      assert TrimStart(s) == s && TrimEnd(s) == s;
    }
  }
}

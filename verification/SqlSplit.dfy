/** Splitting schema files into statements. */
module SqlSplit {
  // Quoted and commented semicolons do not end a statement.
  datatype Mode = Normal | LineComment | BlockComment | Quoted(quote: char)

  predicate IsQuote(c: char) { c == '\'' || c == '"' || c == '`' }

  /** The next character, or one that matches nothing at the end of the input. */
  predicate NextIs(s: string, c: char) { |s| > 1 && s[1] == c }

  /** How many characters the scanner takes at once. */
  function Token(mode: Mode, s: string): (n: nat)
    requires s != ""
    ensures 1 <= n <= |s| && n <= 2
  {
    match mode
    case LineComment => 1
    case BlockComment => if s[0] == '*' && NextIs(s, '/') then 2 else 1
    case Quoted(q) =>
      if s[0] == '\\' && |s| > 1 then 2
      else if s[0] == q && NextIs(s, q) then 2
      else 1
    case Normal => if (s[0] == '-' && NextIs(s, '-')) || (s[0] == '/' && NextIs(s, '*')) then 2 else 1
  }

  function After(mode: Mode, s: string): Mode
    requires s != ""
  {
    match mode
    case LineComment => if s[0] == '\n' then Normal else LineComment
    case BlockComment => if s[0] == '*' && NextIs(s, '/') then Normal else BlockComment
    case Quoted(q) =>
      if s[0] == '\\' && |s| > 1 then mode
      else if s[0] == q && !NextIs(s, q) then Normal
      else mode
    case Normal =>
      if s[0] == '-' && NextIs(s, '-') then LineComment
      else if s[0] == '/' && NextIs(s, '*') then BlockComment
      else if IsQuote(s[0]) then Quoted(s[0])
      else Normal
  }

  /** A semicolon outside quotes and comments. */
  predicate Ends(mode: Mode, s: string) { s != "" && mode == Normal && s[0] == ';' }

  datatype Run = Stops | Reaches(mode: Mode)

  /** Scanning a whole text: the mode at its end, or that it has a semicolon outside quotes and comments. */
  function RunOver(mode: Mode, s: string): Run
    decreases |s|
  {
    if s == "" then Reaches(mode)
    else if Ends(mode, s) then Stops
    else RunOver(After(mode, s), s[Token(mode, s)..])
  }

  /** The offset of the first semicolon outside quotes and comments, or the end. */
  function FirstEnd(mode: Mode, s: string): (j: nat)
    ensures j <= |s| && (j < |s| ==> s[j] == ';')
    decreases |s|
  {
    if s == "" || Ends(mode, s) then 0
    else Token(mode, s) + FirstEnd(After(mode, s), s[Token(mode, s)..])
  }

  /** The raw segments between those semicolons, with `current` already read in mode `mode`. */
  function Segments(mode: Mode, current: string, s: string): seq<string>
    decreases |s|
  {
    var j := FirstEnd(mode, s);
    if j == |s| then [current + s] else [current + s[..j]] + Segments(Normal, "", s[j+1..])
  }

  /** The mode at the end of the input. */
  function FinalMode(mode: Mode, s: string): Mode
    decreases |s|
  {
    if s == "" then mode
    else if Ends(mode, s) then FinalMode(Normal, s[1..])
    else FinalMode(After(mode, s), s[Token(mode, s)..])
  }

  // ---------------------------------------------------------------- statements

  predicate IsSpace(c: char) {
    var n := c as int;
    || 9 <= n <= 13 || n == 32 || n == 160 || n == 0x1680 || 0x2000 <= n <= 0x200A
    || n == 0x2028 || n == 0x2029 || n == 0x202F || n == 0x205F || n == 0x3000 || n == 0xFEFF
  }

  function TrimStart(s: string): string { if s != "" && IsSpace(s[0]) then TrimStart(s[1..]) else s }

  function TrimEnd(s: string): string { if s != "" && IsSpace(s[|s|-1]) then TrimEnd(s[..|s|-1]) else s }

  function Trim(s: string): string { TrimEnd(TrimStart(s)) }

  /** The trimmed segments that hold SQL. */
  function Statements(hasSql: string -> bool, segments: seq<string>): seq<string> {
    if segments == [] then []
    else
      var init, last := Statements(hasSql, segments[..|segments|-1]), Trim(segments[|segments|-1]);
      if hasSql(last) then init + [last] else init
  }

  datatype Result = Unterminated | Split(statements: seq<string>)

  function SplitResult(hasSql: string -> bool, sql: string): Result {
    var m := FinalMode(Normal, sql);
    if m.Quoted? || m == BlockComment then Unterminated else Split(Statements(hasSql, Segments(Normal, "", sql)))
  }

  lemma StatementsLast(hasSql: string -> bool, init: seq<string>, last: string)
    ensures Statements(hasSql, init + [last]) == Statements(hasSql, init)
      + (if hasSql(Trim(last)) then [Trim(last)] else [])
  {
    hide Trim;
    assert (init + [last])[..|init|] == init;
  }

  lemma {:induction false} StatementsJoin(hasSql: string -> bool, a: seq<string>, b: seq<string>)
    ensures Statements(hasSql, a + b) == Statements(hasSql, a) + Statements(hasSql, b)
  {
    hide Trim;
    if b == [] {
      assert a + b == a;
    } else {
      var init, last := b[..|b|-1], b[|b|-1];
      StatementsJoin(hasSql, a, init);
      StatementsLast(hasSql, a + init, last);
      StatementsLast(hasSql, init, last);
      hide Statements;
      assert a + b == (a + init) + [last] && b == init + [last];
    }
  }

  lemma StatementsOfOne(hasSql: string -> bool, segment: string)
    ensures Statements(hasSql, [segment]) == if hasSql(Trim(segment)) then [Trim(segment)] else []
  {
    assert [segment][..0] == [];
  }

  // ---------------------------------------------------------------- the scanner loop

  /** One turn of the scanner on anything but an ending semicolon: what it takes, and the mode it leaves. */
  method ReadToken(mode: Mode, sql: string, i: nat) returns (text: string, mode': Mode, next: nat)
    requires i < |sql| && !Ends(mode, sql[i..])
    ensures mode' == After(mode, sql[i..]) && next == i + Token(mode, sql[i..]) <= |sql| && text == sql[i..next]
  {
    var c := sql[i];
    var hasNext := i + 1 < |sql|;
    assert hasNext ==> sql[i..][1] == sql[i + 1];
    text, mode', next := [c], mode, i + 1;
    var pair := false;
    match mode {
      case LineComment =>
        if c == '\n' { mode' := Normal; }
      case BlockComment =>
        if c == '*' && hasNext && sql[i + 1] == '/' {
          pair, mode' := true, Normal;
        }
      case Quoted(quote) =>
        if c == '\\' && hasNext {
          pair := true;
        } else if c == quote {
          if hasNext && sql[i + 1] == quote { pair := true; } else { mode' := Normal; }
        }
      case Normal =>
        if c == '-' && hasNext && sql[i + 1] == '-' {
          pair, mode' := true, LineComment;
        } else if c == '/' && hasNext && sql[i + 1] == '*' {
          pair, mode' := true, BlockComment;
        } else if c == '\'' || c == '"' || c == '`' {
          mode' := Quoted(c);
        }
    }
    if pair { text, next := text + [sql[i + 1]], i + 2; }
    assert text == sql[i..next];
  }

  method SplitSqlStatements(hasSql: string -> bool, sql: string) returns (r: Result)
    ensures r == SplitResult(hasSql, sql)
  {
    hide Segments, FinalMode, Statements, FirstEnd, Token, After, Trim;
    var statements: seq<string> := [];
    var current := "";
    var mode := Normal;
    var i := 0;
    assert sql[0..] == sql;
    while i < |sql|
      invariant i <= |sql|
      invariant FinalMode(mode, sql[i..]) == FinalMode(Normal, sql)
      invariant statements + Statements(hasSql, Segments(mode, current, sql[i..]))
        == Statements(hasSql, Segments(Normal, "", sql))
      decreases |sql| - i
    {
      ghost var rest := sql[i..];
      if mode == Normal && sql[i] == ';' {
        EndTaken(hasSql, statements, current, rest);
        assert rest[1..] == sql[i+1..];
        var statement := Trim(current);
        if hasSql(statement) { statements := statements + [statement]; }
        current := "";
        i := i + 1;
      } else {
        TokenTaken(mode, current, rest);
        var text, mode', next := ReadToken(mode, sql, i);
        CutTwice(sql, i, next - i);
        current, mode, i := current + text, mode', next;
      }
    }
    assert sql[i..] == "";
    InputRead(hasSql, mode, current);
    if mode.Quoted? || mode == BlockComment {
      return Unterminated;
    }
    var statement := Trim(current);
    if hasSql(statement) { statements := statements + [statement]; }
    r := Split(statements);
  }

  lemma CutTwice(s: string, i: nat, n: nat)
    requires i + n <= |s|
    ensures s[i..][n..] == s[i+n..] && s[i..][..n] == s[i..i+n]
  {
  }

  lemma EndLater(mode: Mode, s: string)
    requires s != "" && !Ends(mode, s)
    ensures FirstEnd(mode, s) == Token(mode, s) + FirstEnd(After(mode, s), s[Token(mode, s)..])
    ensures FinalMode(mode, s) == FinalMode(After(mode, s), s[Token(mode, s)..])
  {
    hide Token, After;
  }

  lemma CutAfter(current: string, s: string, n: nat, j: nat)
    requires n + j <= |s|
    ensures current + s[..n+j] == (current + s[..n]) + s[n..][..j]
    ensures current + s == (current + s[..n]) + s[n..]
    ensures n + j < |s| ==> s[n..][j+1..] == s[n+j+1..]
  {
    assert s[..n+j] == s[..n] + s[n..][..j];
    assert s == s[..n] + s[n..];
  }

  lemma TokenTaken(mode: Mode, current: string, s: string)
    requires s != "" && !Ends(mode, s)
    ensures var n := Token(mode, s);
            && Segments(mode, current, s) == Segments(After(mode, s), current + s[..n], s[n..])
            && FinalMode(mode, s) == FinalMode(After(mode, s), s[n..])
  {
    hide Token, After, FirstEnd, FinalMode, Ends, Segments;
    EndLater(mode, s);
    var n, rest := Token(mode, s), s[Token(mode, s)..];
    var j := FirstEnd(After(mode, s), rest);
    CutAfter(current, s, n, j);
    SegmentsStep(current, mode, s);
    SegmentsStep(current + s[..n], After(mode, s), rest);
  }

  lemma InputRead(hasSql: string -> bool, mode: Mode, current: string)
    ensures FinalMode(mode, "") == mode
    ensures Statements(hasSql, Segments(mode, current, "")) == if hasSql(Trim(current)) then [Trim(current)] else []
  {
    StatementsOfOne(hasSql, current);
    assert current + "" == current;
  }

  lemma EndSplits(current: string, s: string)
    requires Ends(Normal, s)
    ensures Segments(Normal, current, s) == [current] + Segments(Normal, "", s[1..])
    ensures FinalMode(Normal, s) == FinalMode(Normal, s[1..])
  {
    assert FirstEnd(Normal, s) == 0;
    hide FirstEnd;
    assert current + s[..0] == current;
  }

  lemma EndTaken(hasSql: string -> bool, statements: seq<string>, current: string, s: string)
    requires Ends(Normal, s)
    ensures statements + Statements(hasSql, Segments(Normal, current, s))
         == (if hasSql(Trim(current)) then statements + [Trim(current)] else statements)
            + Statements(hasSql, Segments(Normal, "", s[1..]))
    ensures FinalMode(Normal, s) == FinalMode(Normal, s[1..])
  {
    hide Segments, Statements, FinalMode, Trim;
    EndSplits(current, s);
    var rest := Segments(Normal, "", s[1..]);
    StatementsOfOne(hasSql, current);
    StatementsJoin(hasSql, [current], rest);
    assert statements + ([Trim(current)] + Statements(hasSql, rest))
      == (statements + [Trim(current)]) + Statements(hasSql, rest);
  }

  // ---------------------------------------------------------------- what the segments are

  function Join(parts: seq<string>, separator: string): string {
    if parts == [] then "" else if |parts| == 1 then parts[0] else parts[0] + separator + Join(parts[1..], separator)
  }

  lemma JoinCons(first: string, rest: seq<string>, separator: string)
    requires rest != []
    ensures Join([first] + rest, separator) == first + separator + Join(rest, separator)
  {
    assert ([first] + rest)[1..] == rest;
  }

  lemma SegmentsStep(current: string, mode: Mode, s: string)
    ensures var j := FirstEnd(mode, s);
            Segments(mode, current, s) == if j == |s| then [current + s]
              else [current + s[..j]] + Segments(Normal, "", s[j+1..])
  {
    hide FirstEnd;
  }

  /** Joined by semicolons, the raw segments are the input. */
  lemma {:induction false} SegmentsRebuildInput(current: string, mode: Mode, s: string)
    ensures Segments(mode, current, s) != [] && Join(Segments(mode, current, s), ";") == current + s
    decreases |s|
  {
    var j := FirstEnd(mode, s);
    hide FirstEnd, Segments, Join;
    SegmentsStep(current, mode, s);
    if j < |s| {
      SegmentsRebuildInput("", Normal, s[j+1..]);
      JoinCons(current + s[..j], Segments(Normal, "", s[j+1..]), ";");
      assert "" + s[j+1..] == s[j+1..];
      assert (current + s[..j]) + ";" + s[j+1..] == current + s;
    } else {
      JoinOne(current + s, ";");
    }
  }

  lemma JoinOne(part: string, separator: string)
    ensures Join([part], separator) == part
  {
  }

  lemma ScanStep(mode: Mode, s: string)
    requires s != "" && !Ends(mode, s)
    ensures RunOver(mode, s) == RunOver(After(mode, s), s[Token(mode, s)..])
  {
    hide Token, After;
  }

  /** A token read whole is read the same when the text stops right after it, or later. */
  lemma SameTokenOnPrefix(mode: Mode, s: string, j: nat)
    requires s != "" && !Ends(mode, s) && Token(mode, s) <= j <= |s|
    ensures var t := s[..j]; t != "" && !Ends(mode, t) && Token(mode, t) == Token(mode, s)
                             && After(mode, t) == After(mode, s)
  {
    var t := s[..j];
    assert t[0] == s[0] && (|t| > 1 ==> t[1] == s[1]);
  }

  lemma CutPrefix(s: string, n: nat, j: nat)
    requires n <= j <= |s|
    ensures s[..j][n..] == s[n..][..j-n]
  {
  }

  /** Up to the first end, a text scans the same on its own. */
  lemma {:induction false} PrefixScansAlone(mode: Mode, s: string)
    ensures var j := FirstEnd(mode, s);
            RunOver(mode, s[..j]).Reaches? && (j < |s| ==> RunOver(mode, s[..j]) == Reaches(Normal))
    ensures FirstEnd(mode, s) == |s| ==> RunOver(mode, s) == Reaches(FinalMode(mode, s))
    decreases |s|
  {
    hide Token, After;
    if s == "" || Ends(mode, s) {
      assert FirstEnd(mode, s) == 0 && s[..0] == "";
    } else {
      hide FirstEnd, RunOver, FinalMode, Ends;
      var n, j := Token(mode, s), FirstEnd(mode, s);
      EndLater(mode, s);
      PrefixScansAlone(After(mode, s), s[n..]);
      SameTokenOnPrefix(mode, s, j);
      CutPrefix(s, n, j);
      ScanStep(mode, s);
      ScanStep(mode, s[..j]);
    }
  }

  /** No segment has a semicolon outside its quotes and comments, and only the last can end inside one. */
  lemma {:induction false} SegmentsHaveNoEnds(s: string)
    ensures var segments := Segments(Normal, "", s);
            && segments != []
            && (forall i :: 0 <= i < |segments| - 1 ==> RunOver(Normal, segments[i]) == Reaches(Normal))
            && RunOver(Normal, segments[|segments|-1]) == Reaches(FinalMode(Normal, s))
    decreases |s|
  {
    PrefixScansAlone(Normal, s);
    var j := FirstEnd(Normal, s);
    hide FirstEnd, RunOver;
    assert "" + s == s && "" + s[..j] == s[..j];
    if j < |s| {
      SegmentsHaveNoEnds(s[j+1..]);
      FinalModeRestarts(Normal, s);
      var rest := Segments(Normal, "", s[j+1..]);
      assert Segments(Normal, "", s) == [s[..j]] + rest;
      hide Segments, FinalMode;
    }
  }

  lemma {:induction false} FinalModeRestarts(mode: Mode, s: string)
    requires FirstEnd(mode, s) < |s|
    ensures FinalMode(mode, s) == FinalMode(Normal, s[FirstEnd(mode, s)+1..])
    decreases |s|
  {
    hide Token, After;
    if Ends(mode, s) {
      EndSplits("", s);
      assert FirstEnd(mode, s) == 0;
    } else {
      hide FirstEnd, FinalMode, Ends;
      var n := Token(mode, s);
      EndLater(mode, s);
      FinalModeRestarts(After(mode, s), s[n..]);
      CutAfter("", s, n, FirstEnd(After(mode, s), s[n..]));
    }
  }

  // ---------------------------------------------------------------- splitting again changes nothing

  ghost predicate Spaces(s: string) { forall i :: 0 <= i < |s| ==> IsSpace(s[i]) }

  ghost predicate RealMode(m: Mode) { m.Quoted? ==> IsQuote(m.quote) }

  /** Outside quotes and block comments. */
  predicate Outside(m: Mode) { m == Normal || m == LineComment }

  lemma {:induction false} TrimStartSplits(s: string) returns (lead: string)
    ensures s == lead + TrimStart(s) && Spaces(lead)
    ensures TrimStart(s) != "" ==> !IsSpace(TrimStart(s)[0])
  {
    if s != "" && IsSpace(s[0]) {
      var rest := TrimStartSplits(s[1..]);
      lead := [s[0]] + rest;
    } else {
      lead := "";
    }
  }

  lemma {:induction false} TrimEndSplits(s: string) returns (trail: string)
    ensures s == TrimEnd(s) + trail && Spaces(trail)
    ensures TrimEnd(s) != "" ==> !IsSpace(TrimEnd(s)[|TrimEnd(s)|-1])
  {
    if s != "" && IsSpace(s[|s|-1]) {
      var rest := TrimEndSplits(s[..|s|-1]);
      trail := rest + [s[|s|-1]];
    } else {
      trail := "";
    }
  }

  /** A statement's segment is its trimmed text between white space. */
  lemma TrimSplits(s: string) returns (lead: string, trail: string)
    ensures s == lead + (Trim(s) + trail) && Spaces(lead) && Spaces(trail)
    ensures Trim(Trim(s)) == Trim(s) && Trim(Trim(s) + "\n") == Trim(s)
  {
    lead := TrimStartSplits(s);
    trail := TrimEndSplits(TrimStart(s));
    var t := Trim(s);
    assert t != "" ==> t[0] == TrimStart(s)[0];
    assert TrimStart(t) == t;
    var u := t + "\n";
    assert u[..|u|-1] == t;
    if t == "" {
      assert TrimStart(u) == TrimStart(u[1..]) && u[1..] == "";
    } else {
      assert TrimStart(u) == u;
      assert TrimEnd(u) == TrimEnd(t) == t;
    }
  }

  lemma {:induction false} LeadingSpaces(lead: string, s: string)
    requires Spaces(lead)
    ensures RunOver(Normal, lead + s) == RunOver(Normal, s)
  {
    if lead == "" {
      assert lead + s == s;
    } else {
      assert (lead + s)[0] == lead[0] && IsSpace(lead[0]);
      assert (lead + s)[1..] == lead[1..] + s;
      LeadingSpaces(lead[1..], s);
    }
  }

  lemma {:induction false} SpacesStayInside(mode: Mode, spaces: string)
    requires Spaces(spaces) && RealMode(mode) && !Outside(mode)
    ensures RunOver(mode, spaces) == Reaches(mode)
    decreases |spaces|
  {
    if spaces != "" {
      assert IsSpace(spaces[0]);
      SpacesStayInside(mode, spaces[Token(mode, spaces)..]);
    }
  }

  /** Scanning that ends outside does so before its trailing white space. */
  lemma TokenBeforeSpaces(mode: Mode, t: string, trail: string)
    requires t != "" && Spaces(trail) && RealMode(mode) && RunOver(mode, t + trail).Reaches?
    ensures var s := t + trail;
            && !Ends(mode, s) && RealMode(After(mode, s))
            && (Token(mode, s) <= |t| ==>
                !Ends(mode, t) && Token(mode, t) == Token(mode, s) && After(mode, t) == After(mode, s))
            && (Token(mode, s) > |t| ==> |t| == 1 && trail != "" && !Outside(After(mode, s)))
  {
    var s := t + trail;
    assert s[0] == t[0] && (|t| > 1 ==> s[1] == t[1]);
    assert |t| == 1 && trail != "" ==> s[1] == trail[0] && IsSpace(s[1]);
  }

  lemma CutTail(t: string, trail: string, n: nat)
    ensures n <= |t| ==> (t + trail)[n..] == t[n..] + trail
    ensures |t| == 1 && n == 2 && trail != "" ==> (t + trail)[n..] == trail[1..]
  {
  }

  lemma {:induction false} TrailingSpaces(mode: Mode, t: string, trail: string)
    requires Spaces(trail) && RealMode(mode)
    requires RunOver(mode, t + trail).Reaches? && Outside(RunOver(mode, t + trail).mode)
    ensures RunOver(mode, t).Reaches? && Outside(RunOver(mode, t).mode)
    decreases |t|
  {
    var s := t + trail;
    if t == "" {
      assert s == trail;
      if !Outside(mode) { SpacesStayInside(mode, trail); }
    } else {
      hide Token, After, IsSpace;
      TokenBeforeSpaces(mode, t, trail);
      var n := Token(mode, s);
      ScanStep(mode, s);
      CutTail(t, trail, n);
      if n <= |t| {
        TrailingSpaces(After(mode, s), t[n..], trail);
        ScanStep(mode, t);
      } else {
        SpacesStayInside(After(mode, s), trail[1..]);
      }
    }
  }

  lemma SameToken(mode: Mode, t: string, w: string)
    requires t != "" && RealMode(mode) && RunOver(mode, t).Reaches? && Outside(RunOver(mode, t).mode)
    requires w != "" ==> w[0] == '\n'
    ensures !Ends(mode, t) && !Ends(mode, t + w)
    ensures Token(mode, t + w) == Token(mode, t) && After(mode, t + w) == After(mode, t) && RealMode(After(mode, t))
  {
    var s, n := t + w, Token(mode, t);
    assert s[0] == t[0] && (|t| > 1 ==> s[1] == t[1]) && (|t| == 1 && w != "" ==> s[1] == '\n');
    assert RunOver(mode, t) == RunOver(After(mode, t), t[n..]);
    assert |t| == 1 ==> t[n..] == "" && RunOver(mode, t) == Reaches(After(mode, t));
  }

  /** A text that ends outside is scanned the same before a line break. */
  lemma {:induction false} ScansOn(mode: Mode, t: string, w: string)
    requires RealMode(mode) && RunOver(mode, t).Reaches? && Outside(RunOver(mode, t).mode)
    requires w != "" ==> w[0] == '\n'
    ensures FirstEnd(mode, t + w) == |t| + FirstEnd(RunOver(mode, t).mode, w)
    ensures FinalMode(mode, t + w) == FinalMode(RunOver(mode, t).mode, w)
    decreases |t|
  {
    var s := t + w;
    if t == "" {
      assert s == w;
    } else {
      SameToken(mode, t, w);
      hide Token, After;
      var n := Token(mode, t);
      assert s[n..] == t[n..] + w;
      ScansOn(After(mode, t), t[n..], w);
    }
  }

  /** What splitting returns: trimmed SQL that scans to its end outside quotes and block comments. */
  ghost predicate Clean(hasSql: string -> bool, t: string) {
    hasSql(t) && Trim(t) == t && Trim(t + "\n") == t && RunOver(Normal, t).Reaches? && Outside(RunOver(Normal, t).mode)
  }

  lemma SegmentIsClean(hasSql: string -> bool, segment: string)
    requires RunOver(Normal, segment).Reaches? && Outside(RunOver(Normal, segment).mode) && hasSql(Trim(segment))
    ensures Clean(hasSql, Trim(segment))
  {
    hide Trim;
    var lead, trail := TrimSplits(segment);
    LeadingSpaces(lead, Trim(segment) + trail);
    TrailingSpaces(Normal, Trim(segment), trail);
  }

  lemma {:induction false} StatementsAreClean(hasSql: string -> bool, segments: seq<string>)
    requires forall i :: 0 <= i < |segments| ==>
      RunOver(Normal, segments[i]).Reaches? && Outside(RunOver(Normal, segments[i]).mode)
    ensures forall t <- Statements(hasSql, segments) :: Clean(hasSql, t)
  {
    if segments != [] {
      hide RunOver, Clean, Trim;
      StatementsAreClean(hasSql, segments[..|segments|-1]);
      var last := segments[|segments|-1];
      if hasSql(Trim(last)) { SegmentIsClean(hasSql, last); }
    }
  }

  /** A line break and a semicolon end any text that is outside quotes and block comments. */
  lemma BreakEnds(m: Mode, rest: string)
    requires Outside(m)
    ensures FirstEnd(m, "\n;" + rest) == 1 && FinalMode(m, "\n;" + rest) == FinalMode(Normal, rest)
  {
    var w := "\n;" + rest;
    assert w[1..] == ";" + rest && w[1..][1..] == rest;
    assert After(m, w) == Normal && Token(m, w) == 1 && !Ends(m, w) && Ends(Normal, w[1..]);
    EndLater(m, w);
    assert FirstEnd(Normal, w[1..]) == 0;
    EndSplits("", w[1..]);
  }

  lemma BreakAfter(t: string, rest: string)
    requires RunOver(Normal, t).Reaches? && Outside(RunOver(Normal, t).mode)
    ensures FirstEnd(Normal, t + ("\n;" + rest)) == |t| + 1
    ensures FinalMode(Normal, t + ("\n;" + rest)) == FinalMode(Normal, rest)
  {
    hide FirstEnd, FinalMode, RunOver;
    ScansOn(Normal, t, "\n;" + rest);
    BreakEnds(RunOver(Normal, t).mode, rest);
  }

  lemma BreakSlices(t: string, w: string)
    requires |w| >= 2
    ensures "" + (t + w)[..|t|+1] == t + w[..1] && (t + w)[|t|+2..] == w[2..]
  {
  }

  lemma BreakParts(t: string, rest: string)
    ensures t + "\n;" + rest == t + ("\n;" + rest) && ("\n;" + rest)[..1] == "\n" && ("\n;" + rest)[2..] == rest
  {
  }

  lemma StatementThenRest(hasSql: string -> bool, t: string, rest: string)
    requires Clean(hasSql, t)
    ensures var s := t + "\n;" + rest;
            Segments(Normal, "", s) == [t + "\n"] + Segments(Normal, "", rest)
              && FinalMode(Normal, s) == FinalMode(Normal, rest)
  {
    BreakAfter(t, rest);
    hide *;
    BreakParts(t, rest);
    BreakSlices(t, "\n;" + rest);
    SegmentsStep("", Normal, t + ("\n;" + rest));
  }

  lemma LastStatement(hasSql: string -> bool, t: string)
    requires Clean(hasSql, t)
    ensures SplitResult(hasSql, t) == Split([t])
  {
    hide After, Token;
    ScansOn(Normal, t, "");
    assert t + "" == t && "" + t == t;
    StatementsOfOne(hasSql, t);
  }

  lemma NoStatements(hasSql: string -> bool)
    requires !hasSql("")
    ensures SplitResult(hasSql, "") == Split([])
  {
    assert Segments(Normal, "", "") == [""] && Trim("") == "";
    StatementsOfOne(hasSql, "");
  }

  /** Statements joined by a line break and a semicolon split into themselves. */
  lemma {:induction false} CleanStatementsSplit(hasSql: string -> bool, statements: seq<string>)
    requires !hasSql("") && forall t <- statements :: Clean(hasSql, t)
    ensures SplitResult(hasSql, Join(statements, "\n;")) == Split(statements)
  {
    if statements == [] {
      NoStatements(hasSql);
    } else if |statements| == 1 {
      LastStatement(hasSql, statements[0]);
      assert statements == [statements[0]];
    } else {
      var t, others := statements[0], statements[1..];
      assert statements == [t] + others && t in statements;
      hide Clean, Join, SplitResult;
      CleanStatementsSplit(hasSql, others);
      JoinCons(t, others, "\n;");
      OneMoreStatement(hasSql, t, Join(others, "\n;"), others);
    }
  }

  lemma OneMoreStatement(hasSql: string -> bool, t: string, rest: string, others: seq<string>)
    requires Clean(hasSql, t) && SplitResult(hasSql, rest) == Split(others)
    ensures SplitResult(hasSql, t + "\n;" + rest) == Split([t] + others)
  {
    assert Trim(t + "\n") == t && hasSql(t);
    hide FinalMode, Segments, Clean, Trim, Statements;
    StatementThenRest(hasSql, t, rest);
    StatementsOfOne(hasSql, t + "\n");
    StatementsJoin(hasSql, [t + "\n"], Segments(Normal, "", rest));
  }

  /** Splitting is stable: splitting the statements, joined again, returns the same statements. */
  lemma SplittingAgain(hasSql: string -> bool, sql: string)
    requires !hasSql("") && SplitResult(hasSql, sql).Split?
    ensures var statements := SplitResult(hasSql, sql).statements;
            SplitResult(hasSql, Join(statements, "\n;")) == Split(statements)
  {
    hide RunOver, Segments, Clean, Join;
    var segments := Segments(Normal, "", sql);
    SegmentsHaveNoEnds(sql);
    assert Outside(FinalMode(Normal, sql));
    StatementsAreClean(hasSql, segments);
    CleanStatementsSplit(hasSql, Statements(hasSql, segments));
  }
}

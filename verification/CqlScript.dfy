/** The CQL script splitter: controllers/cql_configmaps.go.
    `Step` is what one scanned line does to the splitter's two variables; the
    method below is the source's loop, proved to be the left fold of `Step`. */
module CqlScript {
  import opened Text
  import TextFacts = TextLemmas

  /** The loop variables: the queries emitted so far and the unfinished one. */
  datatype Parser = Parser(queries: seq<string>, query: string)

  /** A line the loop does not skip: not blank and not a comment. */
  predicate IsCode(line: string) {
    !Blank(line) && !("--" <= Trim(line))
  }

  /** The non-blank parts between the semicolons of a line. */
  function Visible(parts: seq<string>): (r: seq<string>)
    ensures |r| <= |parts|
    ensures forall p :: p in r ==> p in parts && !Blank(p)
  {
    if parts == [] then []
    else if Blank(parts[0]) then Visible(parts[1..])
    else [parts[0]] + Visible(parts[1..])
  }

  function LineQueries(line: string): seq<string> {
    Visible(Split(line, ';'))
  }

  /** The line's last part is terminated: nothing but space follows the last semicolon. */
  predicate EndsComplete(line: string) {
    var parts := Split(line, ';');
    Blank(parts[|parts| - 1])
  }

  function Trimmed(parts: seq<string>): (r: seq<string>)
    ensures |r| == |parts|
    ensures forall i :: 0 <= i < |r| ==> r[i] == Trim(parts[i])
  {
    if parts == [] then [] else [Trim(parts[0])] + Trimmed(parts[1..])
  }

  /** The unfinished query continued by the next piece of text. */
  function Continued(query: string, piece: string): string {
    if query != "" then query + "\n" + piece else piece
  }

  function StepQueries(st: Parser, line: string): Parser
    requires ';' in line
  {
    var parts := LineQueries(line);
    if parts == [] then st
    else
      var first := st.queries + [Continued(st.query, parts[0])];
      if |parts| == 1 then Parser(first, "")
      else
        var last := parts[|parts| - 1];
        var middle := first + Trimmed(parts[1..|parts| - 1]);
        if EndsComplete(line) then Parser(middle + [Trim(last)], "")
        else Parser(middle, TrimLeftBlanks(last))
  }

  function Step(st: Parser, line: string): Parser {
    if !IsCode(line) then st
    else if ';' in line then StepQueries(st, line)
    else Parser(st.queries, Continued(st.query, line))
  }

  function Run(st: Parser, lines: seq<string>): Parser {
    if lines == [] then st
    else Step(Run(st, lines[..|lines| - 1]), lines[|lines| - 1])
  }

  /** Text left unfinished at the end of the script is a query too. */
  function Finish(st: Parser): seq<string> {
    if Trim(st.query) != "" then st.queries + [Trim(st.query)] else st.queries
  }

  function Parsed(script: string): seq<string> {
    Finish(Run(Parser([], ""), ScanLines(script)))
  }

  lemma {:induction false} RunConcat(st: Parser, a: seq<string>, b: seq<string>)
    ensures Run(st, a + b) == Run(Run(st, a), b)
    decreases |b|
  {
    if b == [] {
      assert a + b == a;
    } else {
      var init := b[..|b| - 1];
      RunConcat(st, a, init);
      assert (a + b)[..|a + b| - 1] == a + init;
    }
  }

  /** Blank lines and comments count for nothing, wherever they stand. */
  lemma CommentsAreSkipped(st: Parser, before: seq<string>, line: string, after: seq<string>)
    requires Trim(line) == "" || (|Trim(line)| >= 2 && Trim(line)[0] == '-' && Trim(line)[1] == '-')
    ensures Run(st, before + [line] + after) == Run(st, before + after)
  {
    hide Trim, Blank, StepQueries;
    TrimBlank(line);
    RunConcat(st, before + [line], after);
    RunConcat(st, before, after);
    assert (before + [line])[..|before|] == before;
    assert |Trim(line)| >= 2 ==> "--"[0] == Trim(line)[0] && "--"[1] == Trim(line)[1];
  }

  /******* The loop *******/

  method NonEmptyParts(raw: seq<string>) returns (parts: seq<string>)
    ensures parts == Visible(raw)
  {
    hide Trim, Blank;
    parts := [];
    for i := 0 to |raw|
      invariant parts + Visible(raw[i..]) == Visible(raw)
    {
      assert raw[i..][1..] == raw[i + 1..];
      TrimBlank(raw[i]);
      if Trim(raw[i]) == "" {
        continue;
      }
      parts := parts + [raw[i]];
    }
  }

  lemma TrimBlank(s: string)
    ensures Trim(s) == "" <==> Blank(s)
  {
    TextFacts.TrimFacts(s);
  }

  method ParseCQLQueries(script: string) returns (queries: seq<string>)
    ensures queries == Parsed(script)
  {
    var lines := ScanLines(script);
    queries := [];
    var query := "";
    for n := 0 to |lines|
      invariant Parser(queries, query) == Run(Parser([], ""), lines[..n])
    {
      var line := lines[n];
      assert lines[..n + 1][..n] == lines[..n];
      TrimBlank(line);
      var trimmedLine := Trim(line);
      if "--" <= trimmedLine {
        continue;
      }
      if trimmedLine == "" {
        continue;
      }
      TextFacts.FindAbsent(line, ';');
      if Find(line, ';') < |line| {
        queries, query := QueriesOnLine(queries, query, line);
        continue;
      }
      if query != "" {
        query := query + "\n" + line;
      } else {
        query := line;
      }
    }
    assert lines[..|lines|] == lines;
    query := Trim(query);
    if query != "" {
      queries := queries + [query];
    }
  }

  /** The inner loop: neither the first nor the last part of a line can be unfinished. */
  method AppendComplete(queries0: seq<string>, inner: seq<string>) returns (queries: seq<string>)
    ensures queries == queries0 + Trimmed(inner)
  {
    queries := queries0;
    for i := 0 to |inner|
      invariant queries + Trimmed(inner[i..]) == queries0 + Trimmed(inner)
    {
      assert inner[i..][1..] == inner[i + 1..];
      queries := queries + [Trim(inner[i])];
    }
  }

  /** The branch for a line on which one or more queries end. */
  method QueriesOnLine(queries0: seq<string>, query0: string, line: string)
    returns (queries: seq<string>, query: string)
    requires IsCode(line) && ';' in line
    ensures Parser(queries, query) == StepQueries(Parser(queries0, query0), line)
  {
    hide Split, Visible, Trimmed, Blank, Trim, TrimLeftBlanks;
    queries, query := queries0, query0;
    var raw := Split(line, ';');
    var lineQueries := NonEmptyParts(raw);
    if |lineQueries| == 0 {
      return;
    }
    if |lineQueries| == 1 {
      if query != "" {
        queries := queries + [query + "\n" + lineQueries[0]];
        query := "";
      } else {
        queries := queries + [lineQueries[0]];
      }
      return;
    }
    if query != "" {
      queries := queries + [query + "\n" + lineQueries[0]];
    } else {
      queries := queries + [lineQueries[0]];
    }
    queries := AppendComplete(queries, lineQueries[1..|lineQueries| - 1]);
    var lastElement := lineQueries[|lineQueries| - 1];
    var trimmedLine := Trim(line);
    TrimBlank(line);
    EndsInSemicolon(line);
    if trimmedLine[|trimmedLine| - 1] == ';' {
      queries := queries + [Trim(lastElement)];
      query := "";
    } else {
      query := TrimLeftBlanks(lastElement);
    }
  }

  /** The source compares the last semicolon's position with the trimmed line's end. */
  lemma EndsInSemicolon(line: string)
    requires ';' in line && Trim(line) != ""
    ensures Trim(line)[|Trim(line)| - 1] == ';' <==> EndsComplete(line)
  {
    hide Split;
    var k := LastSemicolon(line);
    LastVisible(line, k);
  }

  lemma {:induction false} LastSemicolon(line: string) returns (k: nat)
    requires ';' in line
    ensures k < |line| && line[k] == ';' && ';' !in line[k + 1..]
    ensures Split(line, ';')[|Split(line, ';')| - 1] == line[k + 1..]
    decreases |line|
  {
    k := Find(line, ';');
    TextFacts.FindAbsent(line, ';');
    TextFacts.SplitAtFirst(line, ';', k);
    var rest := line[k + 1..];
    TextFacts.SplitParts(rest, ';');
    hide Split;
    if ';' in rest {
      var j := LastSemicolon(rest);
      assert line[k + 1..][j + 1..] == line[k + 1 + j + 1..];
      k := k + 1 + j;
    }
  }

  lemma LastVisible(line: string, k: nat)
    requires k < |line| && line[k] == ';' && ';' !in line[k + 1..] && Trim(line) != ""
    ensures Trim(line)[|Trim(line)| - 1] == ';' <==> Blank(line[k + 1..])
  {
    var a, b := line[..k + 1], line[k + 1..];
    assert line == a + b;
    assert !IsSpace(a[k]) && !Blank(a);
    TextFacts.TrimLeftConcat(a, b);
    TextFacts.TrimLeftSuffix(a);
    var l := TrimLeft(a);
    TrimLeftLast(a);
    if Blank(b) {
      TrimRightBlankTail(l, b);
    } else {
      TrimRightVisibleTail(l, b);
      TextFacts.TrimRightPrefix(b);
    }
  }

  lemma {:induction false} TrimLeftLast(a: string)
    requires a != "" && !IsSpace(a[|a| - 1])
    ensures TrimLeft(a) != "" && TrimLeft(a)[|TrimLeft(a)| - 1] == a[|a| - 1]
  {
    if IsSpace(a[0]) {
      TrimLeftLast(a[1..]);
    }
  }

  lemma {:induction false} TrimRightBlankTail(a: string, b: string)
    requires a != "" && !IsSpace(a[|a| - 1]) && Blank(b)
    ensures TrimRight(a + b) == a
  {
    if b == "" {
      assert a + b == a;
    } else {
      assert (a + b)[..|a + b| - 1] == a + b[..|b| - 1];
      TrimRightBlankTail(a, b[..|b| - 1]);
    }
  }

  lemma {:induction false} TrimRightVisibleTail(a: string, b: string)
    requires !Blank(b)
    ensures TrimRight(a + b) == a + TrimRight(b)
  {
    if IsSpace(b[|b| - 1]) {
      var b' := b[..|b| - 1];
      assert (a + b)[..|a + b| - 1] == a + b';
      TrimRightVisibleTail(a, b');
    }
  }
}

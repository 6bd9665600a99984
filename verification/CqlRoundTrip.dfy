/** Printing queries, each followed by a semicolon and a newline, and splitting
    the result again: which lists come back exactly. */
module CqlRoundTrip {
  import opened CqlConservation
  import opened CqlRefinement
  import opened CqlScript
  import opened Text
  import opened TextLemmas

  function Printed(queries: seq<string>): string {
    if queries == [] then "" else queries[0] + ";\n" + Printed(queries[1..])
  }

  /** Every line is code, none holds a semicolon, and only the last may end in a carriage return. */
  predicate Printable(q: string) {
    var lines := Split(q, '\n');
    && ';' !in q
    && IsCode(lines[|lines| - 1])
    && forall i :: 0 <= i < |lines| - 1 ==> IsCode(lines[i]) && DropCR(lines[i]) == lines[i]
  }

  function DropCRs(lines: seq<string>): (r: seq<string>)
    ensures |r| == |lines| && forall i :: 0 <= i < |r| ==> r[i] == DropCR(lines[i])
  {
    seq(|lines|, i requires 0 <= i < |lines| => DropCR(lines[i]))
  }

  /** The scanner's view of one printed query. */
  function PrintedLines(q: string): seq<string> {
    var lines := Split(q, '\n');
    DropCRs(lines[..|lines| - 1]) + [lines[|lines| - 1] + ";"]
  }

  lemma {:induction false} ScanPrinted(q: string, rest: string)
    ensures ScanLines(q + ";\n" + rest) == PrintedLines(q) + ScanLines(rest)
    decreases |q|
  {
    hide ScanLines, Split, PrintedLines, DropCR;
    SplitParts(q, '\n');
    if '\n' !in q {
      LastPrinted(q);
      ScanLinesCons(q + ";", rest);
      assert q + ";" + "\n" + rest == q + ";\n" + rest;
    } else {
      var k := Find(q, '\n');
      var q' := q[k + 1..];
      SplitAtFirst(q, '\n', k);
      ScanPrinted(q', rest);
      ScanLinesCons(q[..k], q' + ";\n" + rest);
      assert q == q[..k] + "\n" + q';
      assert q[..k] + "\n" + (q' + ";\n" + rest) == q + ";\n" + rest;
      PrintedLinesCons(q, q', q[..k]);
    }
  }

  lemma LastPrinted(q: string)
    requires Split(q, '\n') == [q]
    ensures PrintedLines(q) == [q + ";"] && DropCR(q + ";") == q + ";"
  {
    hide Split;
    assert [q][..0] == [];
  }

  lemma PrintedLinesCons(q: string, q': string, first: string)
    requires Split(q', '\n') != [] && Split(q, '\n') == [first] + Split(q', '\n')
    ensures PrintedLines(q) == [DropCR(first)] + PrintedLines(q')
  {
    hide Split, DropCR;
    var lines, lines' := Split(q, '\n'), Split(q', '\n');
    assert lines[..|lines| - 1] == [first] + lines'[..|lines'| - 1];
    assert DropCRs(lines[..|lines| - 1]) == [DropCR(first)] + DropCRs(lines'[..|lines'| - 1]);
  }

  /******* The lines of one query, before its last *******/

  /** Lines without a semicolon only pile up in the unfinished query. */
  lemma {:induction false} PilesUp(done: seq<string>, lines: seq<string>)
    requires forall l :: l in lines ==> ';' !in l
    ensures Run(Parser(done, ""), lines) == Parser(done, Join(CodeLines(lines), "\n"))
    ensures forall l :: l in CodeLines(lines) ==> l in lines && !Blank(l)
  {
    hide Blank, Trim;
    if lines != [] {
      var init, line := lines[..|lines| - 1], lines[|lines| - 1];
      PilesUp(done, init);
      if IsCode(line) {
        var kept := CodeLines(init);
        JoinSnoc(kept, line);
        JoinEmpty(kept);
      }
    }
  }

  lemma {:induction false} JoinSnoc(parts: seq<string>, x: string)
    ensures Join(parts + [x], "\n") == if parts == [] then x else Join(parts, "\n") + "\n" + x
  {
    if parts == [] {
    } else if |parts| == 1 {
      assert (parts + [x])[1..] == [x];
    } else {
      assert (parts + [x])[1..] == parts[1..] + [x];
      JoinSnoc(parts[1..], x);
      assert parts[0] + "\n" + (Join(parts[1..], "\n") + "\n" + x) == parts[0] + "\n" + Join(parts[1..], "\n") + "\n" + x;
    }
  }

  lemma JoinEmpty(parts: seq<string>)
    requires forall p :: p in parts ==> !Blank(p)
    ensures Join(parts, "\n") == "" <==> parts == []
  {
    if parts != [] {
      assert !Blank(parts[0]);
      assert parts[0] != "";
    }
  }

  lemma {:induction false} JoinOfSplit(q: string)
    ensures Join(Split(q, '\n'), "\n") == q
    decreases |q|
  {
    SplitParts(q, '\n');
    hide Split;
    if '\n' in q {
      var k := Find(q, '\n');
      SplitAtFirst(q, '\n', k);
      JoinOfSplit(q[k + 1..]);
      assert q == q[..k] + "\n" + q[k + 1..];
      assert Split(q, '\n')[1..] == Split(q[k + 1..], '\n');
    }
  }

  lemma {:induction false} SplitKeepsAbsent(q: string)
    requires ';' !in q
    ensures forall l :: l in Split(q, '\n') ==> ';' !in l
    decreases |q|
  {
    SplitParts(q, '\n');
    hide Split;
    if '\n' in q {
      var k := Find(q, '\n');
      SplitAtFirst(q, '\n', k);
      SplitKeepsAbsent(q[k + 1..]);
    }
  }

  /******* Its last line *******/

  lemma TerminatedLine(l: string)
    requires ';' !in l
    ensures LineQueries(l + ";") == if Blank(l) then [] else [l]
    ensures !Blank(l) ==> (IsCode(l + ";") <==> IsCode(l))
  {
    var i := |l|;
    SplitAtFirst(l + ";", ';', i);
    assert (l + ";")[..i] == l && (l + ";")[i + 1..] == "";
    assert Split("", ';') == [""];
    assert Split(l + ";", ';') == [l] + [""];
    ConsVisible(l, [""]);
    ConsVisible("", []);
    assert [""] == [""] + [];
    hide Split, Visible;
    if !Blank(l) {
      CommentWithSemicolon(l);
    }
  }

  lemma CommentWithSemicolon(l: string)
    requires !Blank(l) && ';' !in l
    ensures !Blank(l + ";") && ("--" <= Trim(l + ";") <==> "--" <= Trim(l))
  {
    BlankConcat(l, ";");
    TrimLeftConcat(l, ";");
    TrimLeftSuffix(l);
    var t := TrimLeft(l);
    assert !Blank(";") by {
      assert ";"[0] == ';';
    }
    TrimRightVisibleTail(t, ";");
    assert TrimRight(";") == ";";
    assert Trim(l + ";") == t + ";";
    TrimRightPrefix(t);
    var u := TrimRight(t);
    assert u <= t && u != "";
    hide TrimRight, TrimLeft;
    if "--" <= t + ";" {
      assert (t + ";")[0] == "--"[0] && (t + ";")[1] == "--"[1];
      assert |t| >= 2 && t[0] == '-' && t[1] == '-';
      DashesStay(t);
    }
  }

  lemma {:induction false} DashesStay(t: string)
    requires |t| >= 2 && t[0] == '-' && t[1] == '-'
    ensures "--" <= TrimRight(t)
    decreases |t|
  {
    if IsSpace(t[|t| - 1]) {
      assert |t| > 2;
      DashesStay(t[..|t| - 1]);
    }
  }

  lemma LastLine(st: Parser, l: string)
    requires ';' !in l
    ensures Step(st, l + ";") == if IsCode(l) then Parser(st.queries + [Continued(st.query, l)], "") else st
  {
    TerminatedLine(l);
    hide Split, Visible, Blank, Trim;
    assert ';' in l + ";" by { assert (l + ";")[|l|] == ';'; }
  }

  /******* Whole queries and whole lists *******/

  /** The lines of a query before its last, as the splitter keeps them. */
  function Kept(q: string): seq<string> {
    var lines := Split(q, '\n');
    CodeLines(DropCRs(lines[..|lines| - 1]))
  }

  /** What one printed query leaves behind, whatever the query. */
  function AfterOne(done: seq<string>, q: string): Parser {
    var lines := Split(q, '\n');
    var last := lines[|lines| - 1];
    if IsCode(last) then Parser(done + [Join(Kept(q) + [last], "\n")], "")
    else Parser(done, Join(Kept(q), "\n"))
  }

  lemma RunOne(done: seq<string>, q: string)
    requires ';' !in q
    ensures Run(Parser(done, ""), PrintedLines(q)) == AfterOne(done, q)
  {
    hide Split, CodeLines, Join, Step, IsCode, Run;
    var lines := Split(q, '\n');
    var last, body := lines[|lines| - 1], DropCRs(lines[..|lines| - 1]);
    SplitKeepsAbsent(q);
    forall l | l in body ensures ';' !in l {
      var i :| 0 <= i < |body| && body[i] == l;
      assert lines[i] in lines;
    }
    PilesUp(done, body);
    var kept := CodeLines(body);
    LastLine(Parser(done, Join(kept, "\n")), last);
    JoinSnoc(kept, last);
    JoinEmpty(kept);
    RunSnoc(Parser(done, ""), body, last + ";");
  }

  lemma RunSnoc(st: Parser, lines: seq<string>, line: string)
    ensures Run(st, lines + [line]) == Step(Run(st, lines), line)
  {
    assert (lines + [line])[..|lines|] == lines;
  }

  lemma {:induction false} AllCode(lines: seq<string>)
    requires forall i :: 0 <= i < |lines| ==> IsCode(lines[i])
    ensures CodeLines(lines) == lines
  {
    hide IsCode;
    if lines != [] {
      var init := lines[..|lines| - 1];
      AllCode(init);
      assert lines == init + [lines[|lines| - 1]];
    }
  }

  lemma RunPrintable(done: seq<string>, q: string)
    requires Printable(q)
    ensures Run(Parser(done, ""), PrintedLines(q)) == Parser(done + [q], "")
  {
    hide Split, CodeLines, Join, Run, IsCode;
    var lines := Split(q, '\n');
    var init := lines[..|lines| - 1];
    RunOne(done, q);
    assert DropCRs(init) == init;
    AllCode(init);
    JoinOfSplit(q);
    assert init + [lines[|lines| - 1]] == lines;
  }

  lemma {:induction false} RunAllPrinted(done: seq<string>, queries: seq<string>)
    requires forall q :: q in queries ==> Printable(q)
    ensures Run(Parser(done, ""), ScanLines(Printed(queries))) == Parser(done + queries, "")
    decreases |queries|
  {
    hide ScanLines, Printable, PrintedLines, Step;
    if queries == [] {
      NothingToScan();
      assert done + queries == done;
    } else {
      hide Run;
      var q, rest := queries[0], queries[1..];
      ScanPrinted(q, Printed(rest));
      RunConcat(Parser(done, ""), PrintedLines(q), ScanLines(Printed(rest)));
      RunPrintable(done, q);
      RunAllPrinted(done + [q], rest);
      assert done + [q] + rest == done + queries;
    }
  }

  /** Round trip: a printed list of printable queries is split back into itself. */
  lemma PrintThenParse(queries: seq<string>)
    requires forall q :: q in queries ==> Printable(q)
    ensures Parsed(Printed(queries)) == queries
  {
    RunAllPrinted([], queries);
    assert [] + queries == queries;
  }

  /******* No other query survives printing *******/

  function TotalLength(parts: seq<string>): nat {
    if parts == [] then 0 else TotalLength(parts[..|parts| - 1]) + |parts[|parts| - 1]| + 1
  }

  lemma {:induction false} JoinLength(parts: seq<string>)
    ensures |Join(parts, "\n")| == if parts == [] then 0 else TotalLength(parts) - 1
  {
    if parts != [] {
      var init, last := parts[..|parts| - 1], parts[|parts| - 1];
      JoinLength(init);
      JoinSnoc(init, last);
      assert parts == init + [last];
      if init == [] {
        assert TotalLength(init) == 0;
      }
    }
  }

  /** Dropping a carriage return or a line always shows in the length. */
  lemma {:induction false} KeptLength(lines: seq<string>)
    ensures var kept := CodeLines(DropCRs(lines));
            && TotalLength(kept) <= TotalLength(lines)
            && (TotalLength(kept) == TotalLength(lines) ==>
                 forall i :: 0 <= i < |lines| ==> IsCode(lines[i]) && DropCR(lines[i]) == lines[i])
  {
    hide IsCode;
    if lines != [] {
      var init, last := lines[..|lines| - 1], lines[|lines| - 1];
      KeptLength(init);
      assert lines == init + [last];
      var body := DropCRs(lines);
      assert body[..|body| - 1] == DropCRs(init);
      assert |DropCR(last)| <= |last|;
      if IsCode(DropCR(last)) {
        var kept := CodeLines(DropCRs(init));
        assert CodeLines(body) == kept + [DropCR(last)];
        assert (kept + [DropCR(last)])[..|kept|] == kept;
      }
    }
  }

  /** One query survives printing exactly when it is printable. */
  lemma SurvivesExactlyWhenPrintable(q: string)
    ensures Parsed(Printed([q])) == [q] <==> Printable(q)
  {
    assert Printed([q]) == q + ";\n" + "" by { assert [q][1..] == []; }
    if Printable(q) {
      PrintThenParse([q]);
    } else if Parsed(Printed([q])) == [q] {
      ParsedConserves(Printed([q]));
      assert ';' !in q;
      SurvivorIsPrintable(q);
    }
  }

  lemma ParseOnePrinted(q: string)
    requires ';' !in q
    ensures Parsed(q + ";\n" + "") == Finish(AfterOne([], q))
  {
    ScanPrinted(q, "");
    NothingToScan();
    hide PrintedLines, AfterOne, Step, Finish;
    assert PrintedLines(q) + ScanLines("") == PrintedLines(q);
    RunOne([], q);
  }

  lemma FinishedLength(done: seq<string>, left: string)
    ensures Finish(Parser(done, "")) == done
    ensures |Finish(Parser([], left))| == 1 ==> |Finish(Parser([], left))[0]| <= |left|
  {
    TrimLength("");
    TrimLength(left);
  }

  lemma PrintedLengths(q: string)
    ensures var lines := Split(q, '\n');
            var init, last := lines[..|lines| - 1], lines[|lines| - 1];
            && |q| == TotalLength(init) + |last|
            && |Join(Kept(q) + [last], "\n")| == TotalLength(Kept(q)) + |last|
            && |Join(Kept(q), "\n")| == (if Kept(q) == [] then 0 else TotalLength(Kept(q)) - 1)
            && (Kept(q) == [] || TotalLength(Kept(q)) > 0)
  {
    hide Split, Kept, Join;
    var lines := Split(q, '\n');
    var last := lines[|lines| - 1];
    JoinOfSplit(q);
    JoinLength(lines);
    JoinLength(Kept(q));
    JoinLength(Kept(q) + [last]);
    assert (Kept(q) + [last])[..|Kept(q)|] == Kept(q);
  }

  function LastOf(q: string): string {
    var lines := Split(q, '\n');
    lines[|lines| - 1]
  }

  lemma UnendedDoesNotSurvive(q: string)
    requires ';' !in q && !IsCode(LastOf(q))
    ensures Parsed(q + ";\n" + "") != [q]
  {
    hide Parsed, IsCode, Finish, Join;
    ParseOnePrinted(q);
    FinishedLength([], Join(Kept(q), "\n"));
    assert AfterOne([], q) == Parser([], Join(Kept(q), "\n"));
    ShorterThanPrinted(q);
    if q == "" {
      OnlyEmpty();
    }
  }

  lemma ShorterThanPrinted(q: string)
    ensures q != "" ==> |Join(Kept(q), "\n")| < |q|
  {
    PrintedLengths(q);
    var lines := Split(q, '\n');
    KeptLength(lines[..|lines| - 1]);
  }

  lemma SurvivorIsPrintable(q: string)
    requires ';' !in q && Parsed(q + ";\n" + "") == [q]
    ensures Printable(q)
  {
    hide Parsed, IsCode, Finish, Join, Split;
    if IsCode(LastOf(q)) {
      ParseOnePrinted(q);
      var whole := Join(Kept(q) + [LastOf(q)], "\n");
      assert AfterOne([], q) == Parser([whole], "");
      FinishedLength([whole], "");
      PrintedLengths(q);
      KeptLength(Split(q, '\n')[..|Split(q, '\n')| - 1]);
    } else {
      UnendedDoesNotSurvive(q);
    }
  }

  lemma OnlyEmpty()
    ensures Parsed("" + ";\n" + "") == []
  {
    SplitParts("", '\n');
    ParseOnePrinted("");
    FinishedLength([], "");
    assert [""][..0] == [];
  }

  lemma NothingToScan()
    ensures ScanLines("") == []
  {
  }

  lemma TrimLength(s: string)
    ensures |Trim(s)| <= |s|
  {
    TrimLeftLength(s);
    TrimRightPrefix(TrimLeft(s));
  }

  lemma {:induction false} TrimLeftLength(s: string)
    ensures |TrimLeft(s)| <= |s|
  {
    if s != "" && IsSpace(s[0]) {
      TrimLeftLength(s[1..]);
    }
  }
}

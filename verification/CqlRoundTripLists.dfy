/** The round trip for whole lists, in both directions. */
module CqlRoundTripLists {
  import opened CqlConservation
  import opened CqlRoundTrip
  import opened CqlScript
  import opened Text

  /** The last line of the printed query ends a query. */
  predicate EndsQuery(q: string) {
    IsCode(LastOf(q))
  }

  function Ends(queries: seq<string>): nat {
    if queries == [] then 0 else (if EndsQuery(queries[0]) then 1 else 0) + Ends(queries[1..])
  }

  /** What the splitter makes of a query that is ended. */
  function Whole(q: string): string {
    Join(Kept(q) + [LastOf(q)], "\n")
  }

  function Wholes(queries: seq<string>): (wholes: seq<string>)
    ensures |wholes| == |queries| && forall i :: 0 <= i < |queries| ==> wholes[i] == Whole(queries[i])
  {
    seq(|queries|, i requires 0 <= i < |queries| => Whole(queries[i]))
  }

  /******* How many queries come back *******/

  lemma {:induction false} NoSemicolonKeepsQueries(st: Parser, lines: seq<string>)
    requires forall l :: l in lines ==> ';' !in l
    ensures Run(st, lines).queries == st.queries
  {
    hide IsCode;
    if lines != [] {
      NoSemicolonKeepsQueries(st, lines[..|lines| - 1]);
      assert lines[|lines| - 1] in lines;
    }
  }

  lemma PrintedBody(q: string)
    requires ';' !in q
    ensures var lines := Split(q, '\n');
            forall l :: l in DropCRs(lines[..|lines| - 1]) ==> ';' !in l
    ensures ';' !in LastOf(q)
  {
    hide Split;
    var lines := Split(q, '\n');
    var body := DropCRs(lines[..|lines| - 1]);
    SplitKeepsAbsent(q);
    forall l | l in body ensures ';' !in l {
      var i :| 0 <= i < |body| && body[i] == l;
      assert lines[i] in lines;
    }
    assert LastOf(q) in lines;
  }

  lemma OneCounts(st: Parser, q: string)
    requires ';' !in q
    ensures var t := Run(st, PrintedLines(q));
            if EndsQuery(q) then |t.queries| == |st.queries| + 1 && t.query == "" else t.queries == st.queries
  {
    hide Split, Step, IsCode;
    PrintedBody(q);
    var lines := Split(q, '\n');
    var body := DropCRs(lines[..|lines| - 1]);
    NoSemicolonKeepsQueries(st, body);
    assert PrintedLines(q)[..|body|] == body && PrintedLines(q)[|body|] == LastOf(q) + ";";
    LastLine(Run(st, body), LastOf(q));
  }

  lemma {:induction false} AllCount(st: Parser, queries: seq<string>)
    requires forall q :: q in queries ==> ';' !in q
    ensures var t := Run(st, ScanLines(Printed(queries)));
            |t.queries| == |st.queries| + Ends(queries)
            && (queries != [] && EndsQuery(queries[|queries| - 1]) ==> t.query == "")
    decreases |queries|
  {
    hide ScanLines, PrintedLines, Run, EndsQuery, Printed;
    if queries == [] {
      NothingRuns(st);
    } else {
      var q, rest := queries[0], queries[1..];
      PrintedCons(queries);
      ScanPrinted(q, Printed(rest));
      RunConcat(st, PrintedLines(q), ScanLines(Printed(rest)));
      OneCounts(st, q);
      var mid := Run(st, PrintedLines(q));
      AllCount(mid, rest);
      if rest == [] {
        NothingRuns(mid);
      } else {
        assert queries[|queries| - 1] == rest[|rest| - 1];
      }
    }
  }

  lemma PrintedCons(queries: seq<string>)
    requires queries != []
    ensures Printed(queries) == queries[0] + ";\n" + Printed(queries[1..])
  {
  }

  lemma NothingRuns(st: Parser)
    ensures Run(st, ScanLines(Printed([]))) == st
  {
    NothingToScan();
  }

  lemma {:induction false} EndsBounded(queries: seq<string>)
    ensures Ends(queries) <= |queries|
    ensures Ends(queries) == |queries| <==> forall q :: q in queries ==> EndsQuery(q)
  {
    hide EndsQuery;
    if queries != [] {
      EndsBounded(queries[1..]);
      assert queries == [queries[0]] + queries[1..];
    }
  }

  lemma {:induction false} EndsSnoc(queries: seq<string>, q: string)
    ensures Ends(queries + [q]) == Ends(queries) + if EndsQuery(q) then 1 else 0
  {
    hide EndsQuery;
    if queries == [] {
      assert [] + [q] == [q] && [q][1..] == [];
    } else {
      assert (queries + [q])[1..] == queries[1..] + [q];
      EndsSnoc(queries[1..], q);
    }
  }

  /******* Lists in which every query is ended *******/

  lemma {:induction false} RunEnded(done: seq<string>, queries: seq<string>, rest: string)
    requires forall q :: q in queries ==> ';' !in q && EndsQuery(q)
    ensures Run(Parser(done, ""), ScanLines(Printed(queries) + rest)) == Run(Parser(done + Wholes(queries), ""), ScanLines(rest))
    decreases |queries|
  {
    hide ScanLines, PrintedLines, Step, Run, EndsQuery, Whole;
    if queries == [] {
      assert Printed(queries) + rest == rest && done + Wholes(queries) == done;
    } else {
      var q, tail := queries[0], queries[1..];
      assert Printed(queries) + rest == q + ";\n" + (Printed(tail) + rest);
      ScanPrinted(q, Printed(tail) + rest);
      RunConcat(Parser(done, ""), PrintedLines(q), ScanLines(Printed(tail) + rest));
      EndedRuns(done, q);
      RunEnded(done + [Whole(q)], tail, rest);
      assert done + [Whole(q)] + Wholes(tail) == done + Wholes(queries);
    }
  }

  lemma EndedRuns(done: seq<string>, q: string)
    requires ';' !in q && EndsQuery(q)
    ensures Run(Parser(done, ""), PrintedLines(q)) == Parser(done + [Whole(q)], "")
  {
    hide Split, Kept, Join, Run, IsCode, PrintedLines;
    RunOne(done, q);
  }

  lemma {:induction false} PrintedSnoc(queries: seq<string>, q: string)
    ensures Printed(queries + [q]) == Printed(queries) + (q + ";\n" + "")
  {
    if queries == [] {
      assert [] + [q] == [q] && [q][1..] == [];
    } else {
      assert (queries + [q])[1..] == queries[1..] + [q];
      PrintedSnoc(queries[1..], q);
    }
  }

  lemma WholeIsPrintable(q: string)
    requires ';' !in q && EndsQuery(q) && Whole(q) == q
    ensures Printable(q)
  {
    hide IsCode, Join, Split;
    PrintedLengths(q);
    KeptLength(Split(q, '\n')[..|Split(q, '\n')| - 1]);
  }

  lemma EndedListSurvives(queries: seq<string>)
    requires forall q :: q in queries ==> ';' !in q && EndsQuery(q)
    requires Parsed(Printed(queries)) == queries
    ensures forall q :: q in queries ==> Printable(q)
  {
    hide EndsQuery, Whole, Run, Printable, ScanLines;
    RunEnded([], queries, "");
    assert Printed(queries) + "" == Printed(queries) && [] + Wholes(queries) == Wholes(queries);
    NothingLeft(Wholes(queries));
    forall q | q in queries ensures Printable(q) {
      var i :| 0 <= i < |queries| && queries[i] == q;
      assert Wholes(queries)[i] == queries[i];
      WholeIsPrintable(q);
    }
  }

  lemma NothingLeft(done: seq<string>)
    ensures Finish(Run(Parser(done, ""), ScanLines(""))) == done
  {
    NothingToScan();
    hide ScanLines, Trim;
    assert Trim("") == "" by { TrimLength(""); }
  }

  /******* A list with a query that is not ended *******/

  /** Only the last query could be unended, and what is left of it is too short. */
  lemma LastUnendedDoesNotSurvive(queries: seq<string>, q: string)
    requires (forall x :: x in queries ==> ';' !in x && EndsQuery(x)) && ';' !in q && !EndsQuery(q) && q != ""
    ensures Parsed(Printed(queries + [q])) != queries + [q]
  {
    hide EndsQuery, Whole, Run, ScanLines, Join, Kept;
    var left := Join(Kept(q), "\n");
    PrintedSnoc(queries, q);
    RunEnded([], queries, q + ";\n" + "");
    var done := Wholes(queries);
    assert [] + done == done;
    UnendedRuns(done, q);
    ShorterThanPrinted(q);
    TrimLength(left);
    var end := Finish(Parser(done, left));
    assert |end| == |queries| + 1 ==> end[|queries|] == Trim(left);
    assert (queries + [q])[|queries|] == q;
  }

  lemma UnendedRuns(done: seq<string>, q: string)
    requires ';' !in q && !EndsQuery(q)
    ensures Run(Parser(done, ""), ScanLines(q + ";\n" + "")) == Parser(done, Join(Kept(q), "\n"))
  {
    hide Split, Kept, Join, IsCode, PrintedLines, ScanLines, Run;
    ScanPrinted(q, "");
    NothingToScan();
    assert PrintedLines(q) + [] == PrintedLines(q);
    RunOne(done, q);
  }

  lemma SurvivorsEnd(queries: seq<string>)
    requires Parsed(Printed(queries)) == queries
    ensures forall q :: q in queries ==> EndsQuery(q) && ';' !in q
  {
    hide EndsQuery, Run, ScanLines;
    ParsedConserves(Printed(queries));
    AllCount(Parser([], ""), queries);
    EndsBounded(queries);
    if queries != [] {
      var init, last := queries[..|queries| - 1], queries[|queries| - 1];
      assert queries == init + [last] && last in queries;
      EndsSnoc(init, last);
      EndsBounded(init);
      FinishCounts(Run(Parser([], ""), ScanLines(Printed(queries))));
      if !EndsQuery(last) && Ends(init) == |init| {
        LastUnendedDoesNotSurvive(init, last);
      }
    }
  }

  lemma FinishCounts(st: Parser)
    ensures |Finish(st)| <= |st.queries| + 1 && (st.query == "" ==> Finish(st) == st.queries)
  {
    TrimLength("");
  }

  /** A list of queries survives printing exactly when every query in it is printable. */
  lemma ListSurvivesExactlyWhenPrintable(queries: seq<string>)
    ensures Parsed(Printed(queries)) == queries <==> forall q :: q in queries ==> Printable(q)
  {
    hide EndsQuery, Printable, Parsed, Printed;
    if Parsed(Printed(queries)) == queries {
      SurvivorsEnd(queries);
      EndedListSurvives(queries);
    }
    if forall q :: q in queries ==> Printable(q) {
      PrintThenParse(queries);
    }
  }
}

/** The comparison itself: one lemma per move of `Mode`, then whole scripts. */
module CqlAlignment {
  import opened CqlConservation
  import opened CqlRefinement
  import opened CqlScript
  import opened Text
  import opened TextLemmas

  ghost predicate Standing(m: Mode, st: Parser, rd: Reader) {
    Related(m, st, rd) && WellFormed(st) && ';' !in rd.pend
  }

  lemma SameTrim(st: Parser, rd: Reader)
    requires TrimLeft(st.query) == TrimLeft(rd.pend)
    ensures Trim(st.query) == Trim(rd.pend) && Weight(st.query) == Weight(rd.pend)
    ensures Blank(st.query) <==> Blank(rd.pend)
  {
    TrimOfSameStart(st.query, rd.pend);
  }

  lemma WeightTrim(s: string)
    ensures Weight(Trim(s)) == Weight(s)
  {
    TrimFacts(s);
  }

  lemma WeightVisible(s: string)
    requires CleanPart(s)
    ensures Weight(s) > 0
  {
    SqueezeVisible(s);
  }

  lemma WeightBlank(s: string)
    requires Blank(s)
    ensures Weight(s) == 0
  {
    SqueezeBlank(s);
  }

  lemma WeightContinued(query: string, piece: string)
    ensures Weight(Continued(query, piece)) == Weight(query) + Weight(piece)
  {
    SqueezeContinued(query, piece);
  }

  /******* A line without a semicolon *******/

  lemma ReaderOnPlain(rd: Reader, line: string)
    requires IsCode(line) && ';' !in line && ';' !in rd.pend
    ensures ReadStep(rd, line) == Reader(rd.done, rd.pend + "\n" + line)
  {
    var s := rd.pend + "\n" + line;
    assert rd.pend + ("\n" + line) == s;
    SplitParts(s, ';');
    assert Split(s, ';')[..0] == [];
  }

  lemma SameStart(query: string, pend: string, piece: string)
    requires !Blank(query) && TrimLeft(query) == TrimLeft(pend)
    ensures query != "" && TrimLeft(query + "\n" + piece) == TrimLeft(pend + "\n" + piece)
  {
    TrimOfSameStart(query, pend);
    JoinedBlank(query, piece);
    JoinedBlank(pend, piece);
    NotEmpty(query);
  }

  lemma PlainLine(m: Mode, st: Parser, rd: Reader, line: string)
    requires Standing(m, st, rd) && (m.Clean? || m.Open?) && IsCode(line) && ';' !in line
    ensures Related(Open, Step(st, line), ReadStep(rd, line))
  {
    ReaderOnPlain(rd, line);
    SqueezeContinued(st.query, line);
    hide Squeeze, ReadStep, Blank, Trim, TrimLeft, Trimmed, WellFormed;
    if m.Open? {
      SameStart(st.query, rd.pend, line);
    } else {
      JoinedBlank(rd.pend, line);
    }
  }

  lemma NotEmpty(s: string)
    requires !Blank(s)
    ensures s != ""
  {
  }

  lemma PlainLineTooLate(m: Mode, st: Parser, rd: Reader, line: string)
    requires Standing(m, st, rd) && (m.Early? || m.Late?) && IsCode(line) && ';' !in line
    ensures Related(Broken, Step(st, line), ReadStep(rd, line))
  {
    var st', rd' := Step(st, line), ReadStep(rd, line);
    ReaderOnPlain(rd, line);
    JoinedBlank(rd.pend, line);
    WeightContinued(st.query, line);
    WeightVisible(line);
    hide Split, Squeeze, ReadStep, Blank, Trim;
    if m.Early? {
      var n := |rd.done|;
      WeightTrim(rd.pend);
      assert Trimmed(st.queries)[n] == Trim(rd.pend);
      WeightTrim(st.queries[n]);
      assert DivergedAt(st', rd', n);
    } else {
      var n := |st.queries|;
      WeightTrim(st.query);
      assert rd.done[n] == Trim(st.query);
      assert DivergedAt(st', rd', n);
    }
  }

  /******* A line that starts with a semicolon *******/

  lemma TrimmedCons(ended: seq<string>)
    requires ended != []
    ensures Trimmed(ended) == [Trim(ended[0])] + Trimmed(ended[1..])
  {
  }

  /** The leading semicolon ends whatever the reader held; the rest is read alike. */
  lemma LeadingSettles(m: Mode, st: Parser, rd: Reader, line: string)
    requires Standing(m, st, rd) && (m.Clean? || m.Early?) && IsCode(line) && LeadsWithSemicolon(line)
    ensures ReadStep(rd, line) == Reader(Trimmed(st.queries) + Trimmed(Ended(line)), Last(line))
  {
    hide Split, Visible, ReadStep, Blank, Trim, Trimmed, TrimLeft, IsCode, WellFormed;
    var lead := Split(line, ';')[0];
    ReaderOnEnded(rd, line);
    EndedParts(line);
    JoinedBlank(rd.pend, lead);
    var settled := if Blank(rd.pend + "\n" + lead) then [] else [Trim(rd.pend + "\n" + lead)];
    assert Trimmed(st.queries) == rd.done + settled;
    assert rd.done + (settled + Trimmed(Inner(line))) == (rd.done + settled) + Trimmed(Inner(line));
  }

  lemma LeadingFromClean(m: Mode, st: Parser, rd: Reader, line: string)
    requires Standing(m, st, rd) && (m.Clean? || m.Early?) && IsCode(line) && LeadsWithSemicolon(line)
    ensures Related(ModeStep(m, line), Step(st, line), ReadStep(rd, line))
  {
    hide Split, Visible, Squeeze, StepQueries, ReadStep, Blank, Trim, Trimmed, TrimLeft, TrimLeftBlanks, WellFormed;
    var ended, last := Ended(line), Last(line);
    LeadingSettles(m, st, rd, line);
    SplitterOnEnded(st, line);
    hide Ended, LineQueries;
    TrimLeftBlanksSame(last);
    OneTrimmed(last);
    if ended != [] {
      TrimmedCons(ended);
      assert Continued(st.query, ended[0]) == ended[0];
    } else {
      TrimmedConcat(st.queries, [last]);
    }
  }

  lemma LeadingFromHeld(m: Mode, st: Parser, rd: Reader, line: string)
    requires Standing(m, st, rd) && (m.Open? || m.Late?) && IsCode(line) && LeadsWithSemicolon(line)
    ensures Related(ModeStep(m, line), Step(st, line), ReadStep(rd, line))
  {
    hide Split, Visible, Squeeze, StepQueries, ReadStep, Blank, Trim, Trimmed, TrimLeft, TrimLeftBlanks, IsCode, WellFormed;
    var st', rd' := Step(st, line), ReadStep(rd, line);
    SplitterOnEnded(st, line);
    ReaderOnEnded(rd, line);
    EndedParts(line);
    JoinedBlank(rd.pend, Split(line, ';')[0]);
    WeightTrim(st.query);
    if m.Open? {
      SameTrim(st, rd);
    }
    OneTrimmed("");
    var n := |st.queries|;
    assert |Trimmed(st.queries)| == n;
    assert n < |rd'.done| && rd'.done[n] == Trim(st.query);
    if LineQueries(line) != [] {
      HeldGrows(st, line);
      assert DivergedAt(st', rd', n);
    }
  }

  /** The first query of the line joins what was held before it. */
  lemma HeldGrows(st: Parser, line: string)
    requires ';' in line && LineQueries(line) != []
    ensures var st', n := StepQueries(st, line), |st.queries|;
            n < |st'.queries| && Weight(st'.queries[n]) > Weight(st.query)
  {
    hide Split, Visible, Squeeze, StepQueries;
    FirstEmitted(st, line);
    FirstWeighs(line);
    WeightContinued(st.query, LineQueries(line)[0]);
  }

  lemma FirstWeighs(line: string)
    requires LineQueries(line) != []
    ensures Weight(LineQueries(line)[0]) > 0
  {
    SplitParts(line, ';');
    hide Split;
    WeightVisible(LineQueries(line)[0]);
  }

  lemma NothingEmitted(st: Parser, line: string)
    requires ';' in line && LineQueries(line) == []
    ensures StepQueries(st, line) == st
  {
  }

  lemma FirstEmitted(st: Parser, line: string)
    requires ';' in line && LineQueries(line) != []
    ensures var st', n := StepQueries(st, line), |st.queries|;
            && st.queries <= st'.queries
            && n < |st'.queries| && st'.queries[n] == Continued(st.query, LineQueries(line)[0])
  {
  }

  /******* A line whose first piece is visible and ended *******/

  lemma EndingLine(m: Mode, st: Parser, rd: Reader, line: string)
    requires Standing(m, st, rd) && (m.Clean? || m.Open?) && IsCode(line) && ';' in line && !LeadsWithSemicolon(line)
    ensures Related(ModeStep(m, line), Step(st, line), ReadStep(rd, line))
  {
    hide Split, Visible, Squeeze, StepQueries, ReadStep, Blank, Trim, Trimmed, TrimLeft, TrimLeftBlanks, IsCode, WellFormed;
    var last, first := Last(line), Split(line, ';')[0];
    SplitterOnEnded(st, line);
    ReaderOnEnded(rd, line);
    EndedParts(line);
    JoinedBlank(rd.pend, first);
    SameHead(m, st, rd, first);
    TrimLeftBlanksSame(last);
  }

  lemma SameHead(m: Mode, st: Parser, rd: Reader, first: string)
    requires Standing(m, st, rd) && (m.Clean? || m.Open?)
    ensures Trim(Continued(st.query, first)) == Trim(rd.pend + "\n" + first)
  {
    hide Blank, TrimLeft, Trim, WellFormed, Trimmed;
    if m.Open? {
      SameStart(st.query, rd.pend, first);
      TrimOfSameStart(st.query + "\n" + first, rd.pend + "\n" + first);
    } else {
      JoinedBlank(rd.pend, first);
    }
  }

  lemma EndingLineTooLate(m: Mode, st: Parser, rd: Reader, line: string)
    requires Standing(m, st, rd) && (m.Early? || m.Late?) && IsCode(line) && ';' in line && !LeadsWithSemicolon(line)
    ensures Related(Broken, Step(st, line), ReadStep(rd, line))
  {
    hide Split, Visible, Squeeze, StepQueries, ReadStep, Blank, Trim, TrimLeft, TrimLeftBlanks;
    var st', rd' := Step(st, line), ReadStep(rd, line);
    var first := Split(line, ';')[0];
    ReaderOnEnded(rd, line);
    EndedParts(line);
    SplitterOnEnded(st, line);
    JoinedBlank(rd.pend, first);
    FirstEmitted(st, line);
    FirstWeighs(line);
    if m.Early? {
      var n := |rd.done|;
      assert Trimmed(st.queries)[n] == Trim(rd.pend);
      WeightTrim(rd.pend);
      WeightTrim(st.queries[n]);
      WeightTrim(rd.pend + "\n" + first);
      assert rd'.done[n] == Trim(rd.pend + "\n" + first);
      assert st'.queries[n] == st.queries[n];
      assert DivergedAt(st', rd', n);
    } else {
      var n := |st.queries|;
      WeightTrim(st.query);
      assert rd'.done[n] == Trim(st.query);
      WeightContinued(st.query, LineQueries(line)[0]);
      assert DivergedAt(st', rd', n);
    }
  }

  /******* Once apart, always apart *******/

  lemma BrokenStays(st: Parser, rd: Reader, line: string, n: nat)
    requires DivergedAt(st, rd, n) && WellFormed(st) && ';' !in rd.pend && IsCode(line)
    ensures DivergedAt(Step(st, line), ReadStep(rd, line), n)
  {
    hide Split, Visible, Squeeze, StepQueries, ReadStep, Blank, Trim, TrimLeft, TrimLeftBlanks;
    var st', rd' := Step(st, line), ReadStep(rd, line);
    if ';' !in line {
      ReaderOnPlain(rd, line);
      JoinedBlank(rd.pend, line);
      WeightContinued(st.query, line);
    } else {
      var first := Split(line, ';')[0];
      var head := rd.pend + "\n" + first;
      ReaderOnEnded(rd, line);
      JoinedBlank(rd.pend, first);
      WeightTrim(head);
      if LineQueries(line) != [] {
        FirstEmitted(st, line);
        WeightContinued(st.query, LineQueries(line)[0]);
      } else {
        NothingEmitted(st, line);
      }
      if Blank(head) {
        WeightBlank(rd.pend);
      }
    }
  }

  lemma StandingStep(m: Mode, st: Parser, rd: Reader, line: string)
    requires Standing(m, st, rd)
    ensures Standing(ModeStep(m, line), Step(st, line), ReadStep(rd, line))
  {
    hide Split, StepQueries, Blank, Trim, WellFormed, ReadStep;
    StepKeepsForm(st, line);
    if IsCode(line) {
      if ';' in line {
        ReaderOnEnded(rd, line);
        SplitParts(line, ';');
      } else {
        ReaderOnPlain(rd, line);
      }
      if m.Broken? {
        var n :| DivergedAt(st, rd, n);
        BrokenStays(st, rd, line, n);
      } else if ';' !in line {
        if m.Clean? || m.Open? {
          PlainLine(m, st, rd, line);
        } else {
          PlainLineTooLate(m, st, rd, line);
        }
      } else if LeadsWithSemicolon(line) {
        if m.Clean? || m.Early? {
          LeadingFromClean(m, st, rd, line);
        } else {
          LeadingFromHeld(m, st, rd, line);
        }
      } else if m.Clean? || m.Open? {
        EndingLine(m, st, rd, line);
      } else {
        EndingLineTooLate(m, st, rd, line);
      }
    } else {
      SkippedLine(rd, line);
    }
  }

  lemma {:induction false} StandingRun(lines: seq<string>)
    ensures Standing(ModeRun(lines), Run(Parser([], ""), lines), ReadRun(lines))
  {
    if lines != [] {
      var init := lines[..|lines| - 1];
      StandingRun(init);
      StandingStep(ModeRun(init), Run(Parser([], ""), init), ReadRun(init), lines[|lines| - 1]);
    }
  }

  lemma FinishedTogether(m: Mode, st: Parser, rd: Reader)
    requires Standing(m, st, rd)
    ensures Trimmed(Finish(st)) == ReadFinish(rd) <==> !m.Broken?
  {
    TrimFacts(st.query);
    TrimFacts(rd.pend);
    TrimmedConcat(st.queries, [Trim(st.query)]);
    match m
    case Clean =>
    case Open => SameTrim(st, rd);
    case Early =>
    case Late =>
    case Broken =>
      var n :| DivergedAt(st, rd, n);
      FinishedApart(st, rd, n);
  }

  lemma FinishedApart(st: Parser, rd: Reader, n: nat)
    requires DivergedAt(st, rd, n)
    ensures Trimmed(Finish(st)) != ReadFinish(rd)
  {
    WeightTrim(st.query);
    WeightTrim(rd.pend);
    TrimBlank(st.query);
    if Blank(st.query) {
      WeightBlank(st.query);
    }
    if Blank(rd.pend) {
      WeightBlank(rd.pend);
    }
    var emitted, expected := Finish(st), ReadFinish(rd);
    assert n < |emitted| && n < |expected| && Weight(emitted[n]) != Weight(expected[n]);
    WeightTrim(emitted[n]);
    assert Trimmed(emitted)[n] == Trim(emitted[n]);
  }

  /** The splitter means what the reader expects on exactly the aligned scripts. */
  lemma ParsedMeetsSpecExactlyWhenAligned(script: string)
    ensures Trimmed(Parsed(script)) == SpecQueries(script) <==> Aligned(script)
  {
    var lines := ScanLines(script);
    StandingRun(lines);
    ReaderMeetsSpec(lines);
    FinishedTogether(ModeRun(lines), Run(Parser([], ""), lines), ReadRun(lines));
  }

  /** It is enough that no code line has only space before its first semicolon. */
  lemma NoLeadingSemicolonIsAligned(script: string)
    requires forall line :: line in ScanLines(script) && IsCode(line) ==> !LeadsWithSemicolon(line)
    ensures Trimmed(Parsed(script)) == SpecQueries(script)
  {
    StaysInStep(ScanLines(script));
    ParsedMeetsSpecExactlyWhenAligned(script);
  }

  lemma {:induction false} StaysInStep(lines: seq<string>)
    requires forall line :: line in lines && IsCode(line) ==> !LeadsWithSemicolon(line)
    ensures ModeRun(lines) in {Clean, Open}
  {
    if lines != [] {
      StaysInStep(lines[..|lines| - 1]);
    }
  }

  /** A query ended by a semicolon on a line of its own swallows the next one. */
  lemma LoneSemicolonMergesQueries()
    ensures !Aligned("a\n;\nb;")
    ensures Trimmed(Parsed("a\n;\nb;")) != SpecQueries("a\n;\nb;")
  {
    LoneSemicolonLines();
    LoneSemicolonModes();
    ParsedMeetsSpecExactlyWhenAligned("a\n;\nb;");
  }

  lemma LoneSemicolonLines()
    ensures ScanLines("a\n;\nb;") == ["a", ";", "b;"]
  {
    hide ScanLines;
    var tail := ";" + "\n" + "b;";
    LastLine();
    ScanLinesCons(";", "b;");
    ScanLinesCons("a", tail);
    SameScript("a" + "\n" + tail);
  }

  lemma LastLine()
    ensures ScanLines("b;") == ["b;"]
  {
    hide ScanLines;
    OneLine("b;");
  }

  lemma SameScript(s: string)
    requires s == "a" + "\n" + (";" + "\n" + "b;")
    ensures s == "a\n;\nb;"
  {
    assert |s| == 6;
    assert s[0] == 'a' && s[1] == '\n' && s[2] == ';' && s[3] == '\n' && s[4] == 'b' && s[5] == ';';
  }

  lemma OneLine(line: string)
    requires line != "" && '\n' !in line && line[|line| - 1] != '\r'
    ensures ScanLines(line) == [line]
  {
    FindAbsent(line, '\n');
  }

  lemma ModeRunSnoc(lines: seq<string>, line: string)
    ensures ModeRun(lines + [line]) == ModeStep(ModeRun(lines), line)
  {
    hide ModeStep;
    assert (lines + [line])[..|lines|] == lines;
  }

  lemma LoneSemicolonModes()
    ensures ModeRun(["a", ";", "b;"]) == Broken
  {
    hide ModeStep, ModeRun;
    LineA();
    LoneSemicolon();
    LineB();
    ModeRunSnoc([], "a");
    ModeRunSnoc(["a"], ";");
    ModeRunSnoc(["a", ";"], "b;");
    assert [] + ["a"] == ["a"] && ["a"] + [";"] == ["a", ";"] && ["a", ";"] + ["b;"] == ["a", ";", "b;"];
    NothingRun();
  }

  lemma NothingRun()
    ensures ModeRun([]) == Clean
  {
    hide ModeStep;
  }

  lemma LineA()
    ensures ModeStep(Clean, "a") == Open
  {
    hide Split, Visible, LeadsWithSemicolon, Ended, EndsComplete;
    assert !IsSpace("a"[0]);
    TrimFacts("a");
    assert IsCode("a") && ';' !in "a";
  }

  lemma LoneSemicolon()
    ensures ModeStep(Open, ";") == Late
  {
    assert !IsSpace(";"[0]);
    TrimFacts(";");
    SplitAtFirst(";", ';', 0);
    hide Trim;
    assert Split(";", ';') == ["", ""];
    assert ["", ""][..1] == [""];
    assert Visible([""]) == [];
    assert IsCode(";") && LeadsWithSemicolon(";") && Ended(";") == [] && EndsComplete(";");
  }

  lemma LineB()
    ensures ModeStep(Late, "b;") == Broken
  {
    assert !IsSpace("b;"[0]) && !IsSpace("b"[0]);
    TrimFacts("b;");
    SplitAtFirst("b;", ';', 1);
    hide Trim, Split, Visible, Ended, EndsComplete;
    assert "b;"[..1] == "b";
    assert "b;"[1] == ';';
    assert IsCode("b;") && !LeadsWithSemicolon("b;");
  }
}

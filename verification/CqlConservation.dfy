/** What the splitter never does, on any script: lose or invent a visible
    character, emit a blank query, or leave a semicolon inside one. */
module CqlConservation {
  import opened CqlScript
  import opened Text
  import opened TextLemmas

  /** The visible text of the lines that are not comments, in order. */
  function VisibleText(lines: seq<string>): string {
    if lines == [] then ""
    else
      var last := lines[|lines| - 1];
      VisibleText(lines[..|lines| - 1]) + (if IsCode(last) then Squeeze(last) else "")
  }

  function Held(st: Parser): string {
    SqueezeAll(st.queries) + Squeeze(st.query)
  }

  ghost predicate WellFormed(st: Parser) {
    && (forall q :: q in st.queries ==> CleanPart(q))
    && (st.query != "" ==> !Blank(st.query))
    && ';' !in st.query
  }

  lemma {:induction false} SqueezeVisibleParts(parts: seq<string>)
    ensures SqueezeAll(Visible(parts)) == SqueezeAll(parts)
  {
    if parts != [] {
      SqueezeVisibleParts(parts[1..]);
      if Blank(parts[0]) {
        SqueezeBlank(parts[0]);
      }
    }
  }

  lemma {:induction false} SqueezeTrimmed(parts: seq<string>)
    ensures SqueezeAll(Trimmed(parts)) == SqueezeAll(parts)
  {
    if parts != [] {
      SqueezeTrimmed(parts[1..]);
      TrimFacts(parts[0]);
      assert Trimmed(parts)[1..] == Trimmed(parts[1..]);
    }
  }

  lemma SqueezeContinued(query: string, piece: string)
    ensures Squeeze(Continued(query, piece)) == Squeeze(query) + Squeeze(piece)
    ensures !Blank(piece) ==> !Blank(Continued(query, piece))
  {
    var c := Continued(query, piece);
    if query != "" {
      SqueezeConcat(query + "\n", piece);
      SqueezeConcat(query, "\n");
      assert Squeeze("\n") == "";
    }
    if !Blank(piece) {
      var i :| 0 <= i < |piece| && !IsSpace(piece[i]);
      assert c[|c| - |piece| + i] == piece[i];
    }
  }

  lemma SqueezeAllSnoc(parts: seq<string>, x: string)
    ensures SqueezeAll(parts + [x]) == SqueezeAll(parts) + Squeeze(x)
  {
    SqueezeAllConcat(parts, [x]);
    SqueezeAllOne(x);
  }

  lemma OnePartConserves(queries: seq<string>, query: string, part: string)
    ensures SqueezeAll(queries + [Continued(query, part)]) == SqueezeAll(queries) + Squeeze(query) + Squeeze(part)
  {
    SqueezeContinued(query, part);
    SqueezeAllSnoc(queries, Continued(query, part));
  }

  lemma ManyPartsConserve(first: seq<string>, parts: seq<string>, middle: seq<string>)
    requires |parts| >= 2 && middle == first + Trimmed(parts[1..|parts| - 1])
    ensures SqueezeAll(middle) + Squeeze(parts[|parts| - 1]) == SqueezeAll(first) + SqueezeAll(parts[1..])
  {
    hide SqueezeAll, Squeeze, Trimmed;
    var inner, last := parts[1..|parts| - 1], parts[|parts| - 1];
    SqueezeTrimmed(inner);
    SqueezeAllConcat(first, Trimmed(inner));
    assert parts[1..] == inner + [last];
    SqueezeAllSnoc(inner, last);
    Associate(SqueezeAll(first), SqueezeAll(inner), Squeeze(last));
  }

  lemma Associate(a: string, b: string, c: string)
    ensures (a + b) + c == a + (b + c)
  {
  }

  lemma TerminatedConserves(st: Parser, line: string)
    requires ';' in line
    ensures Held(StepQueries(st, line)) == Held(st) + SqueezeAll(LineQueries(line))
  {
    hide Split, Visible, Squeeze, Trim, TrimLeftBlanks;
    var parts := LineQueries(line);
    if parts != [] {
      var first := st.queries + [Continued(st.query, parts[0])];
      OnePartConserves(st.queries, st.query, parts[0]);
      assert SqueezeAll(parts) == Squeeze(parts[0]) + SqueezeAll(parts[1..]);
      Associate(Held(st), Squeeze(parts[0]), SqueezeAll(parts[1..]));
      if |parts| == 1 {
        assert Squeeze("") == "" by { SqueezeEmpty(); }
      } else {
        var last := parts[|parts| - 1];
        var middle := first + Trimmed(parts[1..|parts| - 1]);
        hide SqueezeAll, Trimmed;
        ManyPartsConserve(first, parts, middle);
        LastPartConserves(middle, last);
      }
    }
  }

  lemma SqueezeEmpty()
    ensures Squeeze("") == ""
  {
  }

  lemma LastPartConserves(middle: seq<string>, last: string)
    ensures Held(Parser(middle + [Trim(last)], "")) == SqueezeAll(middle) + Squeeze(last)
    ensures Held(Parser(middle, TrimLeftBlanks(last))) == SqueezeAll(middle) + Squeeze(last)
  {
    SqueezeAllSnoc(middle, Trim(last));
    TrimFacts(last);
    TrimLeftBlanksSame(last);
  }

  lemma HeldMeans(st: Parser)
    ensures Held(st) == SqueezeAll(st.queries) + Squeeze(st.query)
  {
  }

  /** One line adds its own visible text and nothing else. */
  lemma StepConserves(st: Parser, line: string)
    ensures Held(Step(st, line)) == Held(st) + (if IsCode(line) then Squeeze(line) else "")
  {
    hide IsCode, Split, Visible, SqueezeAll, Squeeze, StepQueries, Held;
    HeldMeans(st);
    HeldMeans(Step(st, line));
    if IsCode(line) {
      if ';' in line {
        SqueezeSplit(line);
        SqueezeVisibleParts(Split(line, ';'));
        TerminatedConserves(st, line);
      } else {
        SqueezeContinued(st.query, line);
      }
    }
  }

  ghost predicate CleanPart(p: string) {
    !Blank(p) && ';' !in p
  }

  lemma CleanPartShapes(query: string, p: string)
    requires CleanPart(p) && ';' !in query
    ensures CleanPart(Continued(query, p)) && CleanPart(Trim(p)) && CleanPart(TrimLeftBlanks(p))
  {
    SqueezeContinued(query, p);
    TrimFacts(p);
    TrimLeftBlanksSame(p);
  }

  lemma CleanTrimmed(parts: seq<string>)
    requires forall p :: p in parts ==> CleanPart(p)
    ensures forall p :: p in Trimmed(parts) ==> CleanPart(p)
  {
    forall i | 0 <= i < |parts| ensures CleanPart(Trimmed(parts)[i]) {
      CleanPartShapes("", parts[i]);
    }
  }

  lemma TerminatedKeepsForm(st: Parser, line: string)
    requires ';' in line && WellFormed(st)
    ensures WellFormed(StepQueries(st, line))
  {
    hide Split, Visible, Blank, Trim, TrimLeftBlanks, Trimmed;
    var parts := LineQueries(line);
    SplitParts(line, ';');
    assert forall p :: p in parts ==> CleanPart(p);
    if parts != [] {
      CleanPartShapes(st.query, parts[0]);
      if |parts| > 1 {
        CleanTrimmed(parts[1..|parts| - 1]);
        CleanPartShapes("", parts[|parts| - 1]);
      }
    }
  }

  lemma StepKeepsForm(st: Parser, line: string)
    requires WellFormed(st)
    ensures WellFormed(Step(st, line))
  {
    if IsCode(line) {
      if ';' in line {
        TerminatedKeepsForm(st, line);
      } else {
        CleanPartShapes(st.query, line);
      }
    }
  }

  lemma {:induction false} RunConserves(lines: seq<string>)
    ensures Held(Run(Parser([], ""), lines)) == VisibleText(lines)
    ensures WellFormed(Run(Parser([], ""), lines))
  {
    if lines != [] {
      var before := Run(Parser([], ""), lines[..|lines| - 1]);
      RunConserves(lines[..|lines| - 1]);
      StepConserves(before, lines[|lines| - 1]);
      StepKeepsForm(before, lines[|lines| - 1]);
    }
  }

  /** Conservation: the emitted queries hold exactly the visible text of the code lines. */
  lemma ParsedConserves(script: string)
    ensures SqueezeAll(Parsed(script)) == VisibleText(ScanLines(script))
    ensures forall q :: q in Parsed(script) ==> !Blank(q) && ';' !in q
  {
    var st := Run(Parser([], ""), ScanLines(script));
    RunConserves(ScanLines(script));
    TrimFacts(st.query);
    SqueezeAllSnoc(st.queries, Trim(st.query));
    if Blank(st.query) {
      SqueezeBlank(st.query);
    }
  }
}

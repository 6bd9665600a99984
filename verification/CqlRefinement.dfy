/** When the splitter means what a reader expects. The reader's splitter drops
    blank lines and comments, joins the rest, cuts at every semicolon and drops
    blank pieces. The two agree, up to surrounding space, on exactly the scripts
    that `Aligned` accepts. */
module CqlRefinement {
  import opened CqlConservation
  import opened CqlScript
  import opened Text
  import opened TextLemmas

  /******* The reader's splitter *******/

  function CodeLines(lines: seq<string>): seq<string> {
    if lines == [] then []
    else
      var rest := CodeLines(lines[..|lines| - 1]);
      if IsCode(lines[|lines| - 1]) then rest + [lines[|lines| - 1]] else rest
  }

  function SpecQueries(script: string): seq<string> {
    Trimmed(Visible(Split(Join(CodeLines(ScanLines(script)), "\n"), ';')))
  }

  /******* Which scripts agree: a scan of the lines alone *******/

  /** Where the splitter stands against the reader after some lines.
      Clean: nothing unfinished. Open: both hold the same unfinished query.
      Early: the splitter already emitted a query no semicolon has ended.
      Late: the splitter still holds a query a semicolon has ended.
      Broken: a later piece was joined to, or cut from, the wrong query. */
  datatype Mode = Clean | Open | Early | Late | Broken

  /** The visible pieces of the line that a semicolon on it ends. */
  function Ended(line: string): seq<string> {
    var parts := Split(line, ';');
    Visible(parts[..|parts| - 1])
  }

  /** Nothing but space stands before the line's first semicolon. */
  predicate LeadsWithSemicolon(line: string) {
    ';' in line && Blank(Split(line, ';')[0])
  }

  function ModeStep(m: Mode, line: string): Mode {
    if !IsCode(line) || m.Broken? then m
    else if ';' !in line then
      if m.Clean? || m.Open? then Open else Broken
    else if LeadsWithSemicolon(line) then
      if m.Open? || m.Late? then
        if Ended(line) == [] && EndsComplete(line) then Late else Broken
      else if EndsComplete(line) then Clean
      else if Ended(line) == [] then Early
      else Open
    else if m.Early? || m.Late? then Broken
    else if EndsComplete(line) then Clean
    else Open
  }

  function ModeRun(lines: seq<string>): Mode {
    if lines == [] then Clean
    else ModeStep(ModeRun(lines[..|lines| - 1]), lines[|lines| - 1])
  }

  predicate Aligned(script: string) {
    !ModeRun(ScanLines(script)).Broken?
  }

  /******* The reader's splitter, line by line *******/

  datatype Reader = Reader(done: seq<string>, pend: string)

  function ReadStep(rd: Reader, line: string): Reader {
    if !IsCode(line) then rd
    else
      var raw := Split(rd.pend + ("\n" + line), ';');
      Reader(rd.done + Trimmed(Visible(raw[..|raw| - 1])), raw[|raw| - 1])
  }

  function ReadRun(lines: seq<string>): Reader {
    if lines == [] then Reader([], "")
    else ReadStep(ReadRun(lines[..|lines| - 1]), lines[|lines| - 1])
  }

  function ReadFinish(rd: Reader): seq<string> {
    if Blank(rd.pend) then rd.done else rd.done + [Trim(rd.pend)]
  }

  /** Every code line after a newline of its own. */
  function Marked(lines: seq<string>): string {
    if lines == [] then "" else "\n" + lines[0] + Marked(lines[1..])
  }

  lemma {:induction false} MarkedSnoc(lines: seq<string>, line: string)
    ensures Marked(lines + [line]) == Marked(lines) + ("\n" + line)
  {
    if lines == [] {
      assert [line][1..] == [];
    } else {
      assert (lines + [line])[1..] == lines[1..] + [line];
      MarkedSnoc(lines[1..], line);
      Associate("\n" + lines[0], Marked(lines[1..]), "\n" + line);
    }
  }

  lemma {:induction false} MarkedIsJoin(lines: seq<string>)
    requires lines != []
    ensures Marked(lines) == "\n" + Join(lines, "\n")
  {
    if |lines| == 1 {
      assert Marked(lines[1..]) == "";
    } else {
      MarkedIsJoin(lines[1..]);
      assert "\n" + lines[0] + ("\n" + Join(lines[1..], "\n")) == "\n" + (lines[0] + "\n" + Join(lines[1..], "\n"));
    }
  }

  lemma {:induction false} VisibleConcat(a: seq<string>, b: seq<string>)
    ensures Visible(a + b) == Visible(a) + Visible(b)
  {
    if a == [] {
      assert a + b == b;
    } else {
      assert (a + b)[1..] == a[1..] + b;
      VisibleConcat(a[1..], b);
    }
  }

  lemma TrimmedConcat(a: seq<string>, b: seq<string>)
    ensures Trimmed(a + b) == Trimmed(a) + Trimmed(b)
  {
  }

  lemma VisibleLast(parts: seq<string>)
    requires parts != []
    ensures var i, z := parts[..|parts| - 1], parts[|parts| - 1];
            Visible(parts) == Visible(i) + (if Blank(z) then [] else [z])
  {
    var i, z := parts[..|parts| - 1], parts[|parts| - 1];
    assert parts == i + [z];
    VisibleConcat(i, [z]);
    assert Visible([z]) == if Blank(z) then [] else [z];
  }

  /** The reader's state after reading `text`: whole pieces, and what follows the last semicolon. */
  function CutOf(text: string): Reader {
    var p := Split(text, ';');
    Reader(Trimmed(Visible(p[..|p| - 1])), p[|p| - 1])
  }

  lemma ReadStepCuts(text: string, line: string)
    requires IsCode(line)
    ensures ReadStep(CutOf(text), line) == CutOf(text + ("\n" + line))
  {
    hide Split, Visible, Trimmed, Blank, Trim;
    SplitConcat(text, "\n" + line, ';');
    var p, q := Split(text, ';'), Split("\n" + line, ';');
    SplitParts(text, ';');
    SplitPrefixed(p[|p| - 1], "\n" + line, ';');
    CutMeet(p, q);
  }

  /** The line-by-line reader has cut the text read so far at its semicolons. */
  lemma {:induction false} ReadRunCuts(lines: seq<string>)
    ensures ReadRun(lines) == CutOf(Marked(CodeLines(lines)))
  {
    if lines == [] {
      EmptyText();
    } else {
      var init, line := lines[..|lines| - 1], lines[|lines| - 1];
      ReadRunCuts(init);
      hide CutOf, ReadStep;
      if IsCode(line) {
        MarkedSnoc(CodeLines(init), line);
        ReadStepCuts(Marked(CodeLines(init)), line);
      } else {
        SkippedLine(ReadRun(init), line);
      }
    }
  }

  lemma SkippedLine(rd: Reader, line: string)
    requires !IsCode(line)
    ensures ReadStep(rd, line) == rd
  {
  }

  lemma EmptyText()
    ensures Marked([]) == "" && Split("", ';') == [""] && Trimmed(Visible([])) == []
  {
  }

  lemma CutMeet(p: seq<string>, q: seq<string>)
    requires p != [] && q != []
    ensures var m, r := Meet(p, q), [p[|p| - 1] + q[0]] + q[1..];
            && m[|m| - 1] == r[|r| - 1]
            && Trimmed(Visible(m[..|m| - 1])) == Trimmed(Visible(p[..|p| - 1])) + Trimmed(Visible(r[..|r| - 1]))
  {
    hide Visible, Trimmed;
    var m, r := Meet(p, q), [p[|p| - 1] + q[0]] + q[1..];
    assert m == p[..|p| - 1] + r;
    assert m[..|m| - 1] == p[..|p| - 1] + r[..|r| - 1];
    VisibleConcat(p[..|p| - 1], r[..|r| - 1]);
    TrimmedConcat(Visible(p[..|p| - 1]), Visible(r[..|r| - 1]));
  }

  lemma SpaceInFront(w: string, x: string, rest: seq<string>)
    requires Blank(w)
    ensures Trimmed(Visible([w + x] + rest)) == Trimmed(Visible([x] + rest))
  {
    TrimLeftConcat(w, x);
    TrimOfSameStart(w + x, x);
    assert ([w + x] + rest)[1..] == rest == ([x] + rest)[1..];
  }

  lemma CutWithNewline(text: string)
    ensures Trimmed(Visible(Split("\n" + text, ';'))) == Trimmed(Visible(Split(text, ';')))
  {
    var q := Split(text, ';');
    SplitPrefixed("\n", text, ';');
    SpaceInFront("\n", q[0], q[1..]);
    assert q == [q[0]] + q[1..];
  }

  lemma OneTrimmed(x: string)
    ensures Trimmed([x]) == [Trim(x)] && Trimmed([]) == []
  {
  }

  lemma ReaderMeetsSpec(lines: seq<string>)
    ensures ReadFinish(ReadRun(lines)) == Trimmed(Visible(Split(Join(CodeLines(lines), "\n"), ';')))
  {
    hide Split, Visible, Trimmed, CodeLines;
    var code := CodeLines(lines);
    ReadRunCuts(lines);
    var p := Split(Marked(code), ';');
    VisibleLast(p);
    TrimmedConcat(Visible(p[..|p| - 1]), if Blank(p[|p| - 1]) then [] else [p[|p| - 1]]);
    OneTrimmed(p[|p| - 1]);
    assert ReadFinish(ReadRun(lines)) == Trimmed(Visible(p));
    if code != [] {
      MarkedIsJoin(code);
      CutWithNewline(Join(code, "\n"));
    }
  }

  /******* How the two stand after each line *******/

  function Weight(s: string): nat {
    |Squeeze(s)|
  }

  /** The two can no longer agree: their n-th queries differ in visible length,
      or one has emitted an n-th query shorter than what the other still holds. */
  ghost predicate DivergedAt(st: Parser, rd: Reader, n: nat) {
    if n < |st.queries| then
      if n < |rd.done| then Weight(st.queries[n]) != Weight(rd.done[n])
      else n == |rd.done| && Weight(st.queries[n]) < Weight(rd.pend)
    else n == |st.queries| && n < |rd.done| && Weight(rd.done[n]) < Weight(st.query)
  }

  ghost predicate Related(m: Mode, st: Parser, rd: Reader) {
    match m
    case Clean => Trimmed(st.queries) == rd.done && st.query == "" && Blank(rd.pend)
    case Open => Trimmed(st.queries) == rd.done && !Blank(st.query) && TrimLeft(st.query) == TrimLeft(rd.pend)
    case Early => Trimmed(st.queries) == rd.done + [Trim(rd.pend)] && st.query == "" && !Blank(rd.pend)
    case Late => Trimmed(st.queries) + [Trim(st.query)] == rd.done && !Blank(st.query) && Blank(rd.pend)
    case Broken => exists n :: DivergedAt(st, rd, n)
  }

  /** What a line with a semicolon makes the splitter emit, up to trimming. */
  ghost predicate EmittedFor(st: Parser, ended: seq<string>, last: string, st': Parser) {
    if ended != [] then
      && Trimmed(st'.queries) == Trimmed(st.queries) + [Trim(Continued(st.query, ended[0]))] + Trimmed(ended[1..])
      && st'.query == if Blank(last) then "" else TrimLeftBlanks(last)
    else if Blank(last) then st' == st
    else st' == Parser(st.queries + [Continued(st.query, last)], "")
  }

  lemma SplitterOnEnded(st: Parser, line: string)
    requires ';' in line
    ensures LineQueries(line) == Ended(line) + (if Blank(Last(line)) then [] else [Last(line)])
    ensures EmittedFor(st, Ended(line), Last(line), StepQueries(st, line))
  {
    hide Split, Visible, Blank, Trim, TrimLeftBlanks, Trimmed;
    VisibleLast(Split(line, ';'));
    var parts, ended := LineQueries(line), Ended(line);
    var st' := StepQueries(st, line);
    if ended != [] {
      var first := st.queries + [Continued(st.query, parts[0])];
      TrimmedConcat(st.queries, [Continued(st.query, parts[0])]);
      OneTrimmed(Continued(st.query, parts[0]));
      if |parts| == 1 {
        assert ended[1..] == [];
        OneTrimmed("");
      } else if Blank(Last(line)) {
        EmittedMiddle(first, ended);
      } else {
        assert parts[1..|parts| - 1] == ended[1..];
        TrimmedTwice(first, ended[1..]);
      }
    }
  }

  function Last(line: string): string {
    var parts := Split(line, ';');
    parts[|parts| - 1]
  }

  lemma {:induction false} TrimmedIdempotent(more: seq<string>)
    ensures Trimmed(Trimmed(more)) == Trimmed(more)
  {
    if more != [] {
      TrimmedIdempotent(more[1..]);
      TrimFacts(more[0]);
      assert Trimmed(more)[1..] == Trimmed(more[1..]);
    }
  }

  lemma TrimmedTwice(first: seq<string>, more: seq<string>)
    ensures Trimmed(first + Trimmed(more)) == Trimmed(first) + Trimmed(more)
  {
    TrimmedConcat(first, Trimmed(more));
    TrimmedIdempotent(more);
  }

  lemma EmittedMiddle(first: seq<string>, ended: seq<string>)
    requires |ended| >= 2
    ensures Trimmed(first + Trimmed(ended[1..|ended| - 1]) + [Trim(ended[|ended| - 1])])
         == Trimmed(first) + Trimmed(ended[1..])
  {
    hide Trim, Trimmed;
    assert ended[1..] == ended[1..|ended| - 1] + [ended[|ended| - 1]];
    TrimmedConcat(ended[1..|ended| - 1], [ended[|ended| - 1]]);
    OneTrimmed(ended[|ended| - 1]);
    assert Trimmed(ended[1..]) == Trimmed(ended[1..|ended| - 1]) + [Trim(ended[|ended| - 1])];
    TrimmedTwice(first, ended[1..]);
    assert first + Trimmed(ended[1..|ended| - 1]) + [Trim(ended[|ended| - 1])] == first + Trimmed(ended[1..]);
  }

  lemma ConsVisible(x: string, rest: seq<string>)
    ensures Visible([x] + rest) == (if Blank(x) then [] else [x]) + Visible(rest)
  {
    assert ([x] + rest)[1..] == rest;
  }

  lemma ConsInit(x: string, rest: seq<string>)
    requires rest != []
    ensures ([x] + rest)[..|rest|] == [x] + rest[..|rest| - 1] && ([x] + rest)[|rest|] == rest[|rest| - 1]
  {
  }

  /** The pieces strictly between the first and the last semicolon of a line. */
  function Inner(line: string): seq<string>
    requires ';' in line
  {
    var q := Split(line, ';');
    SplitParts(line, ';');
    Visible(q[1..|q| - 1])
  }

  lemma EndedParts(line: string)
    requires ';' in line
    ensures Ended(line) == (if LeadsWithSemicolon(line) then [] else [Split(line, ';')[0]]) + Inner(line)
  {
    var q := Split(line, ';');
    SplitParts(line, ';');
    assert q[..|q| - 1] == [q[0]] + q[1..|q| - 1];
    ConsVisible(q[0], q[1..|q| - 1]);
  }

  /** What the same line makes the reader emit. */
  lemma ReaderOnEnded(rd: Reader, line: string)
    requires IsCode(line) && ';' in line && ';' !in rd.pend
    ensures var rd', head := ReadStep(rd, line), rd.pend + "\n" + Split(line, ';')[0];
            && rd'.pend == Last(line)
            && rd'.done == rd.done + ((if Blank(head) then [] else [Trim(head)]) + Trimmed(Inner(line)))
  {
    hide Split, Visible, Blank, Trim, Trimmed;
    var q := Split(line, ';');
    SplitParts(line, ';');
    assert rd.pend + ("\n" + line) == (rd.pend + "\n") + line;
    SplitPrefixed(rd.pend + "\n", line, ';');
    var head := rd.pend + "\n" + q[0];
    assert Split(rd.pend + ("\n" + line), ';') == [head] + q[1..];
    ConsInit(head, q[1..]);
    assert q[1..][..|q[1..]| - 1] == q[1..|q| - 1];
    ConsVisible(head, q[1..|q| - 1]);
    TrimmedConcat(if Blank(head) then [] else [head], Inner(line));
  }

  lemma JoinedBlank(pend: string, piece: string)
    ensures Blank(pend + "\n" + piece) <==> Blank(pend) && Blank(piece)
    ensures Weight(pend + "\n" + piece) == Weight(pend) + Weight(piece)
    ensures Blank(pend) ==> Trim(pend + "\n" + piece) == Trim(piece)
    ensures Blank(pend) ==> TrimLeft(pend + "\n" + piece) == TrimLeft(piece)
    ensures !Blank(pend) ==> TrimLeft(pend + "\n" + piece) == TrimLeft(pend) + "\n" + piece
    ensures !Blank(pend) && Blank(piece) ==> Trim(pend + "\n" + piece) == Trim(pend)
  {
    NewlineFacts();
    BlankConcat(pend + "\n", piece);
    BlankConcat(pend, "\n");
    BlankConcat("\n", piece);
    TrimLeftConcat(pend, "\n" + piece);
    TrimLeftConcat("\n", piece);
    SqueezeConcat(pend + "\n", piece);
    SqueezeConcat(pend, "\n");
    hide Blank, Squeeze, TrimLeft, TrimRight;
    assert pend + "\n" + piece == pend + ("\n" + piece);
    if !Blank(pend) && Blank(piece) {
      TrimRightTail(TrimLeft(pend), "\n" + piece);
      assert TrimLeft(pend) + ("\n" + piece) == TrimLeft(pend + "\n" + piece);
    }
  }

  lemma NewlineFacts()
    ensures Blank("\n") && Squeeze("\n") == ""
  {
  }

  lemma BlankConcat(a: string, b: string)
    ensures Blank(a + b) <==> Blank(a) && Blank(b)
  {
    if Blank(a + b) {
      assert forall i :: 0 <= i < |a| ==> a[i] == (a + b)[i];
      assert forall i :: 0 <= i < |b| ==> b[i] == (a + b)[|a| + i];
    }
  }

  lemma {:induction false} TrimRightTail(a: string, b: string)
    requires Blank(b)
    ensures TrimRight(a + b) == TrimRight(a)
  {
    if b == "" {
      assert a + b == a;
    } else {
      assert (a + b)[..|a + b| - 1] == a + b[..|b| - 1];
      TrimRightTail(a, b[..|b| - 1]);
    }
  }
}

/** Facts about trimming, splitting and scanning that the script splitter needs. */
module TextLemmas {
  import opened Text

  /******* Visible weight: what no trimming can remove *******/

  /** The characters of `s` that are neither white space nor a semicolon, in order. */
  function Squeeze(s: string): string {
    if s == "" then ""
    else if IsSpace(s[0]) || s[0] == ';' then Squeeze(s[1..])
    else [s[0]] + Squeeze(s[1..])
  }

  function SqueezeAll(parts: seq<string>): string {
    if parts == [] then "" else Squeeze(parts[0]) + SqueezeAll(parts[1..])
  }

  lemma {:induction false} SqueezeConcat(a: string, b: string)
    ensures Squeeze(a + b) == Squeeze(a) + Squeeze(b)
  {
    if a == "" {
      assert a + b == b;
    } else {
      assert (a + b)[1..] == a[1..] + b;
      SqueezeConcat(a[1..], b);
    }
  }

  lemma {:induction false} SqueezeAllConcat(a: seq<string>, b: seq<string>)
    ensures SqueezeAll(a + b) == SqueezeAll(a) + SqueezeAll(b)
  {
    if a == [] {
      assert a + b == b;
    } else {
      assert (a + b)[1..] == a[1..] + b;
      SqueezeAllConcat(a[1..], b);
    }
  }

  lemma SqueezeAllOne(a: string)
    ensures SqueezeAll([a]) == Squeeze(a)
  {
    assert SqueezeAll([a][1..]) == "";
  }

  lemma {:induction false} SqueezeBlank(s: string)
    requires Blank(s)
    ensures Squeeze(s) == ""
  {
    if s != "" {
      SqueezeBlank(s[1..]);
    }
  }

  lemma BlankCons(s: string)
    requires s != ""
    ensures Blank(s) <==> IsSpace(s[0]) && Blank(s[1..])
  {
    if IsSpace(s[0]) && Blank(s[1..]) {
      forall i | 0 <= i < |s| ensures IsSpace(s[i]) {
        if i > 0 {
          assert s[i] == s[1..][i - 1];
        }
      }
    }
  }

  lemma {:induction false} SqueezeVisible(s: string)
    requires !Blank(s) && ';' !in s
    ensures Squeeze(s) != ""
  {
    if IsSpace(s[0]) {
      BlankCons(s);
      SqueezeVisible(s[1..]);
    }
  }

  /******* Trimming *******/

  lemma {:induction false} TrimLeftSuffix(s: string)
    ensures TrimLeft(s) == "" || !IsSpace(TrimLeft(s)[0])
    ensures Squeeze(TrimLeft(s)) == Squeeze(s)
    ensures Blank(s) <==> TrimLeft(s) == ""
    ensures forall c :: c in TrimLeft(s) ==> c in s
  {
    if s != "" && IsSpace(s[0]) {
      TrimLeftSuffix(s[1..]);
      BlankCons(s);
    }
  }

  lemma {:induction false} TrimLeftConcat(a: string, b: string)
    ensures Blank(a) ==> TrimLeft(a + b) == TrimLeft(b)
    ensures !Blank(a) ==> TrimLeft(a + b) == TrimLeft(a) + b
  {
    if a == "" {
      assert a + b == b;
    } else if IsSpace(a[0]) {
      assert (a + b)[1..] == a[1..] + b;
      BlankCons(a);
      TrimLeftConcat(a[1..], b);
    }
  }

  lemma {:induction false} TrimLeftBlanksSame(s: string)
    ensures TrimLeft(TrimLeftBlanks(s)) == TrimLeft(s)
    ensures Squeeze(TrimLeftBlanks(s)) == Squeeze(s)
    ensures Blank(TrimLeftBlanks(s)) <==> Blank(s)
    ensures forall c :: c in TrimLeftBlanks(s) ==> c in s
  {
    if s != "" && s[0] == ' ' {
      TrimLeftBlanksSame(s[1..]);
    }
    TrimLeftSuffix(s);
    TrimLeftSuffix(TrimLeftBlanks(s));
  }

  lemma {:induction false} TrimRightPrefix(s: string)
    ensures TrimRight(s) <= s
    ensures TrimRight(s) == "" || !IsSpace(TrimRight(s)[|TrimRight(s)| - 1])
    ensures Squeeze(TrimRight(s)) == Squeeze(s)
    ensures Blank(s) <==> TrimRight(s) == ""
  {
    if s != "" && IsSpace(s[|s| - 1]) {
      var t := s[..|s| - 1];
      TrimRightPrefix(t);
      assert s == t + [s[|s| - 1]];
      SqueezeConcat(t, [s[|s| - 1]]);
    }
  }

  lemma TrimFacts(s: string)
    ensures Squeeze(Trim(s)) == Squeeze(s)
    ensures Blank(s) <==> Trim(s) == ""
    ensures !Blank(s) ==> !IsSpace(Trim(s)[0]) && !Blank(Trim(s))
    ensures Trim(Trim(s)) == Trim(s)
    ensures forall c :: c in Trim(s) ==> c in s
    ensures Trim(s) != "" ==> !IsSpace(Trim(s)[|Trim(s)| - 1])
  {
    TrimLeftSuffix(s);
    TrimRightPrefix(TrimLeft(s));
    assert TrimLeft(Trim(s)) == Trim(s);
  }

  /** Two texts that agree once their leading space is gone trim to the same text. */
  lemma TrimOfSameStart(a: string, b: string)
    requires TrimLeft(a) == TrimLeft(b)
    ensures Trim(a) == Trim(b)
    ensures Blank(a) <==> Blank(b)
    ensures Squeeze(a) == Squeeze(b)
  {
    TrimLeftSuffix(a);
    TrimLeftSuffix(b);
  }

  /******* Splitting *******/

  lemma {:induction false} FindConcat(a: string, b: string, c: char)
    requires c !in a
    ensures Find(a + b, c) == |a| + Find(b, c)
  {
    if a == "" {
      assert a + b == b;
    } else {
      assert (a + b)[1..] == a[1..] + b;
      FindConcat(a[1..], b, c);
    }
  }

  lemma FindAbsent(s: string, c: char)
    ensures Find(s, c) == |s| <==> c !in s
  {
  }

  lemma {:induction false} SplitParts(s: string, c: char)
    ensures forall p :: p in Split(s, c) ==> c !in p
    ensures c in s <==> |Split(s, c)| > 1
    ensures c !in s ==> Split(s, c) == [s]
    decreases |s|
  {
    var k := Find(s, c);
    if k < |s| {
      SplitParts(s[k + 1..], c);
    }
  }

  lemma SplitAtFirst(s: string, c: char, k: nat)
    requires k < |s| && s[k] == c && forall i :: 0 <= i < k ==> s[i] != c
    ensures Split(s, c) == [s[..k]] + Split(s[k + 1..], c)
  {
    assert Find(s, c) == k;
  }

  /** Text without the separator extends the first part and nothing else. */
  lemma SplitPrefixed(a: string, b: string, c: char)
    requires c !in a
    ensures Split(a + b, c) == [a + Split(b, c)[0]] + Split(b, c)[1..]
  {
    SplitParts(b, c);
    SplitParts(a + b, c);
    hide Split;
    if c in b {
      var k := Find(b, c);
      SplitAtFirst(b, c, k);
      SplitAtFirst(a + b, c, |a| + k);
      assert (a + b)[..|a| + k] == a + b[..k];
      assert (a + b)[|a| + k + 1..] == b[k + 1..];
    }
  }

  /** Only the last part of the left text meets the right text. */
  lemma {:induction false} SplitConcat(a: string, b: string, c: char)
    ensures Split(a + b, c) == Meet(Split(a, c), Split(b, c))
    decreases |a|
  {
    var k := Find(a, c);
    if k == |a| {
      SplitPrefixed(a, b, c);
    } else {
      var a' := a[k + 1..];
      SplitConcat(a', b, c);
      var s := a + b;
      assert s[..k] == a[..k] && s[k + 1..] == a' + b;
      SplitAtFirst(s, c, k);
      MeetCons(a[..k], Split(a', c), Split(b, c));
    }
  }

  function Meet(p: seq<string>, q: seq<string>): seq<string>
    requires p != [] && q != []
  {
    p[..|p| - 1] + [p[|p| - 1] + q[0]] + q[1..]
  }

  lemma MeetCons(x: string, p: seq<string>, q: seq<string>)
    requires p != [] && q != []
    ensures Meet([x] + p, q) == [x] + Meet(p, q)
  {
    assert ([x] + p)[..|p|] == [x] + p[..|p| - 1] && ([x] + p)[|p|] == p[|p| - 1];
  }

  lemma {:induction false} SqueezeSplit(s: string)
    ensures SqueezeAll(Split(s, ';')) == Squeeze(s)
    decreases |s|
  {
    var k := Find(s, ';');
    if k == |s| {
      SqueezeAllOne(s);
    } else {
      SqueezeSplit(s[k + 1..]);
      assert s == s[..k] + ([';'] + s[k + 1..]);
      SqueezeConcat(s[..k], [';'] + s[k + 1..]);
      assert ([';'] + s[k + 1..])[1..] == s[k + 1..];
      assert ([s[..k]] + Split(s[k + 1..], ';'))[1..] == Split(s[k + 1..], ';');
    }
  }

  /** A line read off the front of a script. */
  lemma ScanLinesCons(line: string, rest: string)
    requires '\n' !in line
    ensures ScanLines(line + "\n" + rest) == [DropCR(line)] + ScanLines(rest)
  {
    var s := line + "\n" + rest;
    assert s == line + ("\n" + rest);
    FindConcat(line, "\n" + rest, '\n');
    assert Find("\n" + rest, '\n') == 0;
    assert s[..|line|] == line && s[|line| + 1..] == rest;
  }

  /** A carriage return before the end of a line is no part of it. */
  lemma CarriageReturnsGo(line: string, rest: string)
    requires '\n' !in line
    ensures ScanLines(line + "\r\n" + rest) == [line] + ScanLines(rest)
  {
    assert line + "\r\n" + rest == (line + "\r") + "\n" + rest;
    ScanLinesCons(line + "\r", rest);
    assert (line + "\r")[|line|] == '\r' && (line + "\r")[..|line|] == line;
  }
}

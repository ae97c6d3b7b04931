/** `Trace.pprint` read back by `Trace.parse` (pyxmv/outcome.py): the lines
    `pprint` yields, joined with newlines, parse to the trace they came
    from, except that an empty description or type comes back as "N/A"
    and the loop indexes, which `pprint` does not print, are lost. */
module TraceText {
  import opened Base
  import opened PyStr
  import opened Dicts
  import opened Outcomes

  // ------------------------------------------------- what can be printed

  /** A header field `pprint` prints and `parse` can read back: after the
      "N/A" substitution it is trimmed, on one line, holds no "->", and
      does not repeat the text `parse` splits at. */
  predicate FieldPrintable(s: string, tag: string) {
    var f := OrNA(s);
    Trimmed(f) && NoLineBreak(f) && !Contains(f, "->") && !Contains(f, tag)
  }

  /** An entry printed as "    k = v" that `parse_state` reads back: both
      sides non-empty, trimmed, on one line, free of "=", "->" and "<-",
      and the name does not start a comment. */
  predicate EntryPrintable(e: (string, string)) {
    e.0 != [] && e.1 != [] && Trimmed(e.0) && Trimmed(e.1) && e.0[0] != '-'
    && NoLineBreak(e.0) && NoLineBreak(e.1)
    && !Contains(e.0, "=") && !Contains(e.1, "=")
    && !Contains(e.0, "->") && !Contains(e.1, "->")
    && !Contains(e.0, "<-") && !Contains(e.1, "<-")
  }

  predicate StatePrintable(s: StrState) {
    UniqueKeys(s) && forall j :: 0 <= j < |s| ==> EntryPrintable(s[j])
  }

  // ---------------------------------------- the printed text, in pieces

  function Raws(ss: seq<StrState>): (rs: seq<State>)
    ensures |rs| == |ss| && forall k :: 0 <= k < |ss| ==> rs[k] == Raw(ss[k])
  {
    seq(|ss|, k requires 0 <= k < |ss| => Raw(ss[k]))
  }

  function EntryLine(e: (string, string)): string {
    "    " + e.0 + " = " + e.1
  }

  /** What a state header holds between its "->" and its "<-". */
  function Opening(i: nat): string {
    " State: 1." + NatToString(i) + " "
  }

  /** The text after a state's "<-": its entry lines, and the indentation
      of the next header unless it is the last state. */
  function Body(s: StrState, last: bool): string {
    Prefixed(BodyLines(s, last))
  }

  /** The text between two "->": one state. */
  function Piece(i: nat, s: StrState, last: bool): string {
    Opening(i) + "<-" + Body(s, last)
  }

  function Pieces(ss: seq<StrState>, i: nat): (r: seq<string>)
    requires ss != []
    ensures |r| == |ss|
    ensures forall k :: 0 <= k < |ss| ==> r[k] == Piece(i + k, ss[k], k == |ss| - 1)
    decreases |ss|
  {
    if |ss| == 1 then [Piece(i, ss[0], true)]
    else [Piece(i, ss[0], false)] + Pieces(ss[1..], i + 1)
  }

  // --------------------------------------------------------- one entry

  lemma EntryLineAt(d: StrState, j: int)
    requires 0 <= j < |d|
    ensures EntryLines(Raw(d))[j] == EntryLine(d[j])
  {
  }

  /** "    k = v", stripped, is "k = v". */
  lemma StripEntry(e: (string, string))
    requires EntryPrintable(e)
    ensures Strip(EntryLine(e)) == e.0 + " = " + e.1
    ensures (e.0 + " = " + e.1)[0] == e.0[0]
  {
    var line := e.0 + " = " + e.1;
    assert line[|line| - 1] == e.1[|e.1| - 1];
    assert EntryLine(e) == "    " + line + "";
    StripPadded("    ", line, "");
  }

  /** "k = v" splits at "=" into its two sides, spaces kept. */
  lemma SplitEntry(k: string, v: string)
    requires !Contains(k, "=") && !Contains(v, "=")
    ensures Split(k + " = " + v, "=") == [k + " ", " " + v]
  {
    EqualsAbsentLeft(k);
    NoneAfterChar(' ', v, "=");
    assert k + " = " + v == (k + " ") + "=" + (" " + v);
    SplitFirst(k + " ", "=", " " + v);
    SplitAbsent(" " + v, "=");
  }

  lemma EqualsAbsentLeft(k: string)
    requires !Contains(k, "=")
    ensures !Contains((k + " ") + "="[..0], "=")
  {
    assert !Contains(" ", "=");
    NoneInConcat(k, " ", "=");
    assert (k + " ") + "="[..0] == k + " ";
  }

  /** Both sides of "k = v", stripped, are k and v. */
  lemma StripSides(k: string, v: string)
    requires Trimmed(k) && Trimmed(v) && k != [] && v != []
    ensures Strip(k + " ") == k && Strip(" " + v) == v
  {
    StripPadded("", k, " ");
    StripPadded(" ", v, "");
    assert "" + k + " " == k + " " && " " + v + "" == " " + v;
  }

  /** `parse_state` reads the entry line back as the entry. */
  lemma ReadEntry(e: (string, string))
    requires EntryPrintable(e)
    ensures ReadLine(EntryLine(e)) == Assign(e.0, e.1)
  {
    var line := e.0 + " = " + e.1;
    StripEntry(e);
    StartsWithAt(line, "--", 0);
    SplitEntry(e.0, e.1);
    StripSides(e.0, e.1);
  }

  /** The patterns the parser splits states at, with the characters
      `pprint` glues entries together with. */
  predicate Arrow(p: string) {
    |p| == 2 && p[0] != ' ' && p[0] != '\n' && p[0] != '=' && p[1] != ' ' && p[1] != '\n'
  }

  lemma EntryLineFree(e: (string, string), p: string)
    requires Arrow(p) && !Contains(e.0, p) && !Contains(e.1, p)
    ensures !Contains("\n" + EntryLine(e), p)
  {
    var a := "\n    ";
    AvoidsChar(a, p, 0);
    NoneInConcat(a, e.0, p);
    AvoidsChar(" = ", p, 0);
    NoneInConcat(a + e.0, " = ", p);
    NoneInConcat(a + e.0 + " = ", e.1, p);
    assert "\n" + EntryLine(e) == a + e.0 + " = " + e.1;
  }

  lemma PrefixedFirst(lines: seq<string>)
    requires lines != []
    ensures Prefixed(lines) != [] && Prefixed(lines)[0] == '\n'
  {
  }

  /** No entry line holds an arrow. */
  lemma {:induction false} EntriesFree(d: StrState, p: string)
    requires Arrow(p)
    requires forall j :: 0 <= j < |d| ==> !Contains(d[j].0, p) && !Contains(d[j].1, p)
    ensures !Contains(Prefixed(EntryLines(Raw(d))), p)
    decreases |d|
  {
    var ls := EntryLines(Raw(d));
    if d != [] {
      var rest := EntryLines(Raw(d[1..]));
      assert ls[1..] == rest;
      EntriesFree(d[1..], p);
      EntryLineFree(d[0], p);
      if rest != [] {
        PrefixedFirst(rest);
      }
      NoneInConcat("\n" + EntryLine(d[0]), Prefixed(rest), p);
    }
  }

  lemma BodyFree(s: StrState, last: bool, p: string)
    requires Arrow(p)
    requires forall j :: 0 <= j < |s| ==> !Contains(s[j].0, p) && !Contains(s[j].1, p)
    ensures !Contains(Body(s, last), p)
  {
    var ls := EntryLines(Raw(s));
    EntriesFree(s, p);
    if !last {
      PrefixedAppend(ls, ["  "]);
      assert Prefixed(["  "]) == "\n  ";
      AvoidsChar("\n  ", p, 0);
      NoneInConcat(Prefixed(ls), "\n  ", p);
    } else {
      assert ls + [] == ls;
    }
  }

  lemma OpeningAvoids(i: nat, c: char)
    requires c == '-' || c == '<'
    ensures Avoids(Opening(i), c)
  {
    AvoidsConcat(" State: 1.", NatToString(i), c);
    AvoidsConcat(" State: 1." + NatToString(i), " ", c);
  }

  /** A state's piece holds no "->", and none is formed with the first
      character of the next separator. */
  lemma PieceFree(i: nat, s: StrState, last: bool)
    requires StatePrintable(s)
    ensures !Contains(Piece(i, s, last), "->")
    ensures !Contains(Piece(i, s, last) + "-", "->")
  {
    var o := Opening(i);
    OpeningAvoids(i, '-');
    AvoidsChar(o, "->", 0);
    assert !Contains("<-", "->");
    NoneInConcat(o, "<-", "->");
    BodyFree(s, last, "->");
    var b := Body(s, last);
    var ls := EntryLines(Raw(s)) + (if last then [] else ["  "]);
    if ls != [] {
      PrefixedFirst(ls);
    }
    NoneInConcat(o + "<-", b, "->");
    assert !Contains("-", "->");
    NoneInConcat(o + "<-" + b, "-", "->");
  }

  /** The text after a state's "<-" is its body. */
  lemma PieceSplit(i: nat, s: StrState, last: bool)
    requires StatePrintable(s)
    ensures Split(Piece(i, s, last), "<-") == [Opening(i), Body(s, last)]
  {
    var o := Opening(i);
    OpeningAvoids(i, '<');
    AvoidsChar(o, "<-", 0);
    assert !Contains("<", "<-");
    NoneInConcat(o, "<", "<-");
    assert "<-"[..1] == "<";
    SplitFirst(o, "<-", Body(s, last));
    BodyFree(s, last, "<-");
    SplitAbsent(Body(s, last), "<-");
  }

  // ------------------------------------------------- filling the state

  function Assigns(s: StrState): (ls: seq<Line>)
    ensures |ls| == |s| && forall j :: 0 <= j < |s| ==> ls[j] == Assign(s[j].0, s[j].1)
  {
    seq(|s|, j requires 0 <= j < |s| => Assign(s[j].0, s[j].1))
  }

  lemma {:induction false} FillConcat(acc: StrState, x: seq<Line>, y: seq<Line>)
    ensures Fill(acc, x + y) == match Fill(acc, x) case Err(e) => Err(e) case Ok(m) => Fill(m, y)
    decreases |x|
  {
    if x != [] {
      assert (x + y)[1..] == x[1..] + y;
      assert (x + y)[0] == x[0];
      var next := if x[0].Assign? then Put(acc, x[0].key, x[0].value) else acc;
      FillConcat(next, x[1..], y);
    } else {
      assert x + y == y;
    }
  }

  lemma {:induction false} PutNew(d: StrState, k: string, v: string)
    requires k !in Keys(d)
    ensures Put(d, k, v) == d + [(k, v)]
    decreases |d|
  {
    if d != [] {
      assert Keys(d) == [d[0].0] + Keys(d[1..]);
      PutNew(d[1..], k, v);
      assert d + [(k, v)] == [d[0]] + (d[1..] + [(k, v)]);
    }
  }

  /** Assigning distinct new keys in order appends them in order. */
  lemma {:induction false} FillAssigns(acc: StrState, s: StrState)
    requires UniqueKeys(s)
    requires forall i, j :: 0 <= i < |acc| && 0 <= j < |s| ==> acc[i].0 != s[j].0
    ensures Fill(acc, Assigns(s)) == Ok(acc + s)
    decreases |s|
  {
    if s == [] {
      assert acc + s == acc;
    } else {
      FillAssignStep(acc, s);
      KeysStayApart(acc, s);
      FillAssigns(acc + [s[0]], s[1..]);
      ShiftFirst(acc, s);
    }
  }

  lemma ShiftFirst(acc: StrState, s: StrState)
    requires s != []
    ensures acc + [s[0]] + s[1..] == acc + s
  {
    assert s == [s[0]] + s[1..];
  }

  lemma {:induction false} FillAssignStep(acc: StrState, s: StrState)
    requires s != [] && forall i :: 0 <= i < |acc| ==> acc[i].0 != s[0].0
    ensures Fill(acc, Assigns(s)) == Fill(acc + [s[0]], Assigns(s[1..]))
  {
    var ls := Assigns(s);
    assert ls[1..] == Assigns(s[1..]);
    assert s[0].0 !in Keys(acc);
    PutNew(acc, s[0].0, s[0].1);
  }

  lemma KeysStayApart(acc: StrState, s: StrState)
    requires s != [] && UniqueKeys(s)
    requires forall i, j :: 0 <= i < |acc| && 0 <= j < |s| ==> acc[i].0 != s[j].0
    ensures UniqueKeys(s[1..])
    ensures forall i, j :: 0 <= i < |acc + [s[0]]| && 0 <= j < |s[1..]| ==> (acc + [s[0]])[i].0 != s[1..][j].0
  {
    var acc' := acc + [s[0]];
    forall i, j | 0 <= i < |acc'| && 0 <= j < |s[1..]| ensures acc'[i].0 != s[1..][j].0 {
      assert s[1..][j] == s[j + 1];
      if i < |acc| {
        assert acc'[i] == acc[i];
      }
    }
  }

  /** The lines of a state's body, before they are split. */
  function BodyLines(s: StrState, last: bool): seq<string> {
    EntryLines(Raw(s)) + (if last then [] else ["  "])
  }

  lemma BodyLinesShape(s: StrState, last: bool)
    requires StatePrintable(s)
    ensures var ls := BodyLines(s, last);
      |ls| == |s| + (if last then 0 else 1)
      && (forall j :: 0 <= j < |ls| ==> NoLineBreak(ls[j]) && ls[j] != [])
      && (forall j :: 0 <= j < |s| ==> ls[j] == EntryLine(s[j]))
      && (!last ==> ls[|s|] == "  ")
  {
    var es := EntryLines(Raw(s));
    forall j | 0 <= j < |es| ensures NoLineBreak(es[j]) && es[j] != [] {
      EntryLineAt(s, j);
      NoLineBreakConcat("    ", s[j].0);
      NoLineBreakConcat("    " + s[j].0, " = ");
      NoLineBreakConcat("    " + s[j].0 + " = ", s[j].1);
    }
  }

  lemma ReadBlank(l: string)
    requires l == "" || l == "  "
    ensures ReadLine(l) == Skipped
  {
    AllSpaceStrips(l);
  }

  lemma ClassifyIs(lines: seq<string>, ls: seq<Line>)
    requires |lines| == |ls| && forall j :: 0 <= j < |ls| ==> ReadLine(lines[j]) == ls[j]
    ensures Classify(lines) == ls
  {
  }

  lemma ReadBodyLine(s: StrState, last: bool, j: int)
    requires StatePrintable(s) && 0 <= j < |s| + (if last then 0 else 1)
    ensures ReadLine(BodyLines(s, last)[j]) == if j < |s| then Assign(s[j].0, s[j].1) else Skipped
  {
    BodyLinesShape(s, last);
    if j < |s| {
      ReadEntry(s[j]);
    } else {
      ReadBlank("  ");
    }
  }

  /** What the body's lines read as. */
  function BodyReads(s: StrState, last: bool): seq<Line> {
    [Skipped] + Assigns(s) + (if last then [] else [Skipped])
  }

  lemma BodyIndex(s: StrState, last: bool, j: int)
    requires StatePrintable(s) && 0 <= j < |BodyReads(s, last)|
    ensures ([""] + BodyLines(s, last))[j] ==
      if j == 0 then "" else if j <= |s| then EntryLine(s[j - 1]) else "  "
    ensures BodyReads(s, last)[j] ==
      if j == 0 || j > |s| then Skipped else Assign(s[j - 1].0, s[j - 1].1)
  {
    BodyLineIndex(s, last, j);
    BodyReadIndex(s, last, j);
  }

  lemma BodyLineIndex(s: StrState, last: bool, j: int)
    requires 0 <= j <= |s| + (if last then 0 else 1)
    ensures ([""] + BodyLines(s, last))[j] ==
      if j == 0 then "" else if j <= |s| then EntryLine(s[j - 1]) else "  "
  {
    var es := EntryLines(Raw(s));
    var bl := BodyLines(s, last);
    assert bl == es + (if last then [] else ["  "]);
    if j > 0 {
      assert ([""] + bl)[j] == bl[j - 1];
      if j <= |s| {
        assert bl[j - 1] == es[j - 1];
        EntryLineAt(s, j - 1);
      }
    }
  }

  lemma BodyReadIndex(s: StrState, last: bool, j: int)
    requires 0 <= j < |BodyReads(s, last)|
    ensures BodyReads(s, last)[j] ==
      if j == 0 || j > |s| then Skipped else Assign(s[j - 1].0, s[j - 1].1)
  {
    var a := [Skipped] + Assigns(s);
    assert BodyReads(s, last) == a + (if last then [] else [Skipped]);
    if j <= |s| {
      assert BodyReads(s, last)[j] == a[j];
      if j > 0 {
        assert a[j] == Assigns(s)[j - 1];
      }
    }
  }

  lemma ClassifyBodyAt(s: StrState, last: bool, j: int)
    requires StatePrintable(s) && 0 <= j < |BodyReads(s, last)|
    ensures ReadLine(([""] + BodyLines(s, last))[j]) == BodyReads(s, last)[j]
  {
    BodyIndex(s, last, j);
    if j == 0 {
      ReadBlank("");
    } else if j <= |s| {
      ReadEntry(s[j - 1]);
    } else {
      ReadBlank("  ");
    }
  }

  lemma ClassifyBody(s: StrState, last: bool)
    requires StatePrintable(s)
    ensures Classify([""] + BodyLines(s, last)) == BodyReads(s, last)
  {
    BodyLinesShape(s, last);
    forall j | 0 <= j < |BodyReads(s, last)|
      ensures ReadLine(([""] + BodyLines(s, last))[j]) == BodyReads(s, last)[j]
    {
      ClassifyBodyAt(s, last, j);
    }
    ClassifyIs([""] + BodyLines(s, last), BodyReads(s, last));
  }

  lemma FillBody(s: StrState, last: bool)
    requires StatePrintable(s)
    ensures Fill([], BodyReads(s, last)) == Ok(s)
  {
    var skip: seq<Line> := if last then [] else [Skipped];
    FillAssigns([], s);
    FillConcat([], [Skipped] + Assigns(s), skip);
    FillConcat([], [Skipped], Assigns(s));
    assert [] + s == s;
  }

  lemma NoLoopFlag(s: StrState, last: bool)
    requires StatePrintable(s)
    ensures !LoopFlag([""] + BodyLines(s, last))
  {
    var lines := [""] + BodyLines(s, last);
    BodyLinesShape(s, last);
    var final := lines[|lines| - 1];
    if !last {
      AllSpaceStrips("  ");
    } else if s != [] {
      assert final == EntryLine(s[|s| - 1]);
      StripEntry(s[|s| - 1]);
      StartsWithAt(Strip(final), LOOP_MARKER, 0);
    } else {
      assert final == "";
    }
  }

  /** `parse_state` reads a state's body back as the state, with no loop flag. */
  lemma ReadBody(s: StrState, last: bool)
    requires StatePrintable(s)
    ensures StateOf(Body(s, last)) == Ok((s, false))
  {
    var ls := BodyLines(s, last);
    BodyLinesShape(s, last);
    SplitLinesPrefixed(ls);
    if ls != [] {
      ClassifyBody(s, last);
      FillBody(s, last);
      NoLoopFlag(s, last);
    }
  }

  // ------------------------------------------------------ the whole text

  lemma HeaderText(i: nat)
    ensures "\n" + StateHeader(i) == "\n  " + "->" + Opening(i) + "<-"
  {
  }

  lemma StateLinesUnfold(ss: seq<StrState>, i: nat)
    requires ss != []
    ensures StateLines(Raws(ss), i) ==
      [StateHeader(i)] + EntryLines(Raw(ss[0])) + StateLines(Raws(ss[1..]), i + 1)
  {
    assert Raws(ss)[1..] == Raws(ss[1..]);
  }

  /** One state's printed lines, each preceded by "\n". */
  lemma PrefixedThree(h: string, es: seq<string>, rest: seq<string>)
    ensures Prefixed([h] + es + rest) == "\n" + h + Prefixed(es) + Prefixed(rest)
  {
    PrefixedAppend([h] + es, rest);
    PrefixedAppend([h], es);
    assert Prefixed([h]) == "\n" + h + Prefixed([]);
  }

  lemma StateLinesCons(ss: seq<StrState>, i: nat)
    requires ss != []
    ensures Prefixed(StateLines(Raws(ss), i)) ==
      "\n  " + "->" + (Opening(i) + "<-" + Prefixed(EntryLines(Raw(ss[0]))))
      + Prefixed(StateLines(Raws(ss[1..]), i + 1))
  {
    var es := EntryLines(Raw(ss[0]));
    var rest := StateLines(Raws(ss[1..]), i + 1);
    StateLinesUnfold(ss, i);
    PrefixedThree(StateHeader(i), es, rest);
    HeaderText(i);
  }

  lemma PieceEnd(i: nat, s: StrState, last: bool)
    ensures Piece(i, s, last) ==
      Opening(i) + "<-" + Prefixed(EntryLines(Raw(s))) + (if last then "" else "\n  ")
  {
    var es := EntryLines(Raw(s));
    if last {
      assert BodyLines(s, last) == es;
    } else {
      PrefixedAppend(es, ["  "]);
      assert Prefixed(["  "]) == "\n  " + Prefixed([]);
    }
  }

  lemma {:induction false} StateLinesPieces(ss: seq<StrState>, i: nat)
    requires ss != []
    ensures Prefixed(StateLines(Raws(ss), i)) == "\n  " + "->" + Join(Pieces(ss, i), "->")
    decreases |ss|
  {
    StateLinesCons(ss, i);
    var head := Opening(i) + "<-" + Prefixed(EntryLines(Raw(ss[0])));
    if |ss| == 1 {
      assert Raws(ss[1..]) == [];
      PieceEnd(i, ss[0], true);
      assert head + "" == head;
    } else {
      StateLinesPieces(ss[1..], i + 1);
      PieceEnd(i, ss[0], false);
      PiecesCons(ss, i);
      Regroup("\n  ", "->", head, Join(Pieces(ss[1..], i + 1), "->"));
    }
  }

  lemma PiecesCons(ss: seq<StrState>, i: nat)
    requires |ss| > 1
    ensures Join(Pieces(ss, i), "->") == Piece(i, ss[0], false) + "->" + Join(Pieces(ss[1..], i + 1), "->")
  {
    var ps := Pieces(ss, i);
    assert ps[1..] == Pieces(ss[1..], i + 1);
  }

  lemma Regroup(x: string, y: string, h: string, j: string)
    ensures x + y + h + (x + y + j) == x + y + ((h + x) + y + j)
  {
  }

  /** The printed lines: no breaks inside, and every state line is indented. */
  lemma {:induction false} StateLinesShape(ss: seq<StrState>, i: nat)
    requires forall k :: 0 <= k < |ss| ==> StatePrintable(ss[k])
    ensures forall k :: 0 <= k < |StateLines(Raws(ss), i)| ==>
      var l := StateLines(Raws(ss), i)[k]; NoLineBreak(l) && l != [] && l[0] == ' '
    decreases |ss|
  {
    if ss != [] {
      var rs := Raws(ss);
      var es := EntryLines(Raw(ss[0]));
      assert rs[1..] == Raws(ss[1..]);
      StateLinesShape(ss[1..], i + 1);
      NoLineBreakConcat("  -> State: 1.", NatToString(i));
      NoLineBreakConcat("  -> State: 1." + NatToString(i), " <-");
      forall j | 0 <= j < |es| ensures NoLineBreak(es[j]) && es[j] != [] && es[j][0] == ' ' {
        EntryLineAt(ss[0], j);
        NoLineBreakConcat("    ", ss[0][j].0);
        NoLineBreakConcat("    " + ss[0][j].0, " = ");
        NoLineBreakConcat("    " + ss[0][j].0 + " = ", ss[0][j].1);
      }
    }
  }

  /** The first two printed lines and the indentation before the first
      "->" hold no "->", and none is formed with the next separator. */
  lemma HeadFree(descr: string, ty: string)
    requires !Contains(descr, "->") && !Contains(ty, "->")
    ensures !Contains(Head(descr, ty), "->") && !Contains(Head(descr, ty) + "-", "->")
  {
    var l0, l1 := "Trace Description: ", "Trace Type: ";
    HeadLiteralsFree();
    var a, b := l0 + descr, l1 + ty;
    NoneInConcat(l0, descr, "->");
    NoneInConcat(l1, ty, "->");
    NoneInConcat(a, "\n", "->");
    NoneInConcat(a + "\n", b, "->");
    NoneInConcat(a + "\n" + b, "\n  ", "->");
    NoneInConcat(Head(descr, ty), "-", "->");
  }

  lemma HeadLiteralsFree()
    ensures !Contains("Trace Description: ", "->") && !Contains("Trace Type: ", "->")
    ensures !Contains("\n", "->") && !Contains("\n  ", "->") && !Contains("-", "->")
  {
    AvoidsChar("Trace Description: ", "->", 0);
    AvoidsChar("Trace Type: ", "->", 0);
    AvoidsChar("\n", "->", 0);
    AvoidsChar("\n  ", "->", 0);
  }

  /** The header lines give back the description and the type. */
  lemma ReadHeader(descr: string, ty: string)
    requires Trimmed(descr) && NoLineBreak(descr) && !Contains(descr, "Trace Description:")
    requires Trimmed(ty) && NoLineBreak(ty) && !Contains(ty, "Type:")
    ensures var l0, l1 := "Trace Description: " + descr, "Trace Type: " + ty;
      SplitLines(l0 + "\n" + l1 + "\n  ") == [l0, l1, "  "]
      && |Split(l0, "Trace Description:")| >= 2 && Strip(Split(l0, "Trace Description:")[1]) == descr
      && |Split(l1, "Type:")| >= 2 && Strip(Split(l1, "Type:")[1]) == ty
  {
    HeaderLines("Trace Description: " + descr, "Trace Type: " + ty);
    ReadDescription(descr);
    ReadType(ty);
  }

  lemma HeaderLines(l0: string, l1: string)
    requires NoLineBreak(l0) && NoLineBreak(l1)
    ensures SplitLines(l0 + "\n" + l1 + "\n  ") == [l0, l1, "  "]
  {
    var c := "  ";
    IndentLine();
    var r1 := l1 + "\n" + c;
    SplitLinesCons(l1, c);
    SplitLinesCons(l0, r1);
    HeaderRegroup(l0, l1);
  }

  lemma HeaderRegroup(l0: string, l1: string)
    ensures l0 + "\n" + l1 + "\n  " == l0 + "\n" + (l1 + "\n" + "  ")
  {
    assert "\n  " == "\n" + "  ";
  }

  lemma IndentLine()
    ensures SplitLines("  ") == ["  "]
  {
    LineEndNone("  ", 0);
  }

  lemma ReadDescription(descr: string)
    requires Trimmed(descr) && !Contains(descr, "Trace Description:")
    ensures var parts := Split("Trace Description: " + descr, "Trace Description:");
      |parts| >= 2 && Strip(parts[1]) == descr
  {
    var q := "Trace Description:";
    assert "Trace Description: " + descr == "" + q + (" " + descr);
    assert !Contains("" + q[..|q| - 1], q);
    SplitFirst("", q, " " + descr);
    NoneAfterChar(' ', descr, q);
    SplitAbsent(" " + descr, q);
    StripPadded(" ", descr, "");
    assert " " + descr + "" == " " + descr;
  }

  lemma ReadType(ty: string)
    requires Trimmed(ty) && !Contains(ty, "Type:")
    ensures var parts := Split("Trace Type: " + ty, "Type:");
      |parts| >= 2 && Strip(parts[1]) == ty
  {
    assert "Trace Type: " + ty == "Trace " + "Type:" + (" " + ty);
    assert "Trace " + "Type:"[..4] == "Trace " + "Type";
    AvoidsChar("Trace " + "Type", "Type:", 4);
    SplitFirst("Trace ", "Type:", " " + ty);
    NoneAfterChar(' ', ty, "Type:");
    SplitAbsent(" " + ty, "Type:");
    StripPadded(" ", ty, "");
    assert " " + ty + "" == " " + ty;
  }

  function Head(d: string, ty: string): string {
    ("Trace Description: " + d) + "\n" + ("Trace Type: " + ty) + "\n  "
  }

  lemma PrintedLines(t: Trace, toNumber: string -> Option<int>)
    requires t.states != []
    ensures PPrint(t, false, false, toNumber) ==
      ["Trace Description: " + OrNA(t.description), "Trace Type: " + OrNA(t.traceType)]
      + StateLines(Raws(t.states), 0)
  {
    assert GetStates(t, false, false, toNumber) == Raws(t.states);
  }

  lemma JoinTwoLines(l0: string, l1: string, sl: seq<string>)
    ensures Join([l0, l1] + sl, "\n") == l0 + Prefixed([l1] + sl)
  {
    var lines := [l0, l1] + sl;
    JoinPrefixed(lines);
    assert lines[1..] == [l1] + sl;
  }

  lemma FrontJoin(l0: string, l1: string, sl: seq<string>, ps: seq<string>)
    requires ps != [] && Prefixed(sl) == "\n  " + "->" + Join(ps, "->")
    ensures l0 + Prefixed([l1] + sl) == Join([l0 + "\n" + l1 + "\n  "] + ps, "->")
  {
    PrefixedAppend([l1], sl);
    assert Prefixed([l1]) == "\n" + l1 + Prefixed([]);
    var p0 := l0 + "\n" + l1 + "\n  ";
    var j := Join(ps, "->");
    assert ([p0] + ps)[1..] == ps;
    assert Join([p0] + ps, "->") == p0 + "->" + j;
  }

  lemma HeadJoin(d: string, ty: string, ss: seq<StrState>)
    requires ss != []
    ensures ("Trace Description: " + d) + Prefixed(["Trace Type: " + ty] + StateLines(Raws(ss), 0))
      == Join([Head(d, ty)] + Pieces(ss, 0), "->")
  {
    var l0, l1 := "Trace Description: " + d, "Trace Type: " + ty;
    StateLinesPieces(ss, 0);
    FrontJoin(l0, l1, StateLines(Raws(ss), 0), Pieces(ss, 0));
  }

  /** The printed text, seen line by line and piece by piece. */
  lemma PrintedText(t: Trace, toNumber: string -> Option<int>)
    requires t.states != []
    ensures var l0, l1 := "Trace Description: " + OrNA(t.description), "Trace Type: " + OrNA(t.traceType);
      var text := Join(PPrint(t, false, false, toNumber), "\n");
      text == l0 + Prefixed([l1] + StateLines(Raws(t.states), 0))
      && text == Join([Head(OrNA(t.description), OrNA(t.traceType))] + Pieces(t.states, 0), "->")
  {
    var l0, l1 := "Trace Description: " + OrNA(t.description), "Trace Type: " + OrNA(t.traceType);
    PrintedLines(t, toNumber);
    JoinTwoLines(l0, l1, StateLines(Raws(t.states), 0));
    HeadJoin(OrNA(t.description), OrNA(t.traceType), t.states);
  }

  /** No printed line after the first starts with `q`. */
  lemma LinesAvoid(l1: string, sl: seq<string>, q: string)
    requires NoLineBreak(l1) && !StartsWith(l1, q) && q != [] && q[0] != ' '
    requires forall k :: 0 <= k < |sl| ==> NoLineBreak(sl[k]) && sl[k] != [] && sl[k][0] == ' '
    ensures forall k :: 0 <= k < |[l1] + sl| ==>
      NoLineBreak(([l1] + sl)[k]) && !StartsWith(([l1] + sl)[k], q)
  {
    var ls := [l1] + sl;
    forall k | 0 <= k < |ls| ensures NoLineBreak(ls[k]) && !StartsWith(ls[k], q) {
      if k > 0 {
        assert ls[k] == sl[k - 1];
        StartsWithAt(sl[k - 1], q, 0);
      }
    }
  }

  lemma TypeLineFree(ty: string)
    requires NoLineBreak(ty)
    ensures NoLineBreak("Trace Type: " + ty) && !StartsWith("Trace Type: " + ty, "Trace Description:")
  {
    NoLineBreakConcat("Trace Type: ", ty);
    StartsWithAt("Trace Type: " + ty, "Trace Description:", 6);
  }

  lemma DescriptionTag()
    ensures NoLineBreak("Trace Description:") && "Trace Description:" != []
      && "Trace Description:"[0] != ' ' && "\n" + "Trace Description:" == "\nTrace Description:"
  {
  }

  lemma NoSecondDescriptionText(d: string, ty: string, ss: seq<StrState>)
    requires NoLineBreak(d) && NoLineBreak(ty)
    requires forall k :: 0 <= k < |ss| ==> StatePrintable(ss[k])
    ensures !Contains(("Trace Description: " + d) + Prefixed(["Trace Type: " + ty] + StateLines(Raws(ss), 0)),
                      "\nTrace Description:")
  {
    var l0, l1 := "Trace Description: " + d, "Trace Type: " + ty;
    var q := "Trace Description:";
    var sl := StateLines(Raws(ss), 0);
    DescriptionTag();
    StateLinesShape(ss, 0);
    NoLineBreakConcat("Trace Description: ", d);
    TypeLineFree(ty);
    LinesAvoid(l1, sl, q);
    NoLineStartsWith(l0, [l1] + sl, q);
  }

  /** `find("\nTrace Description:")` finds nothing in the printed text. */
  lemma NoSecondDescription(t: Trace)
    requires FieldPrintable(t.description, "Trace Description:") && FieldPrintable(t.traceType, "Type:")
    requires forall k :: 0 <= k < |t.states| ==> StatePrintable(t.states[k])
    ensures var l0, l1 := "Trace Description: " + OrNA(t.description), "Trace Type: " + OrNA(t.traceType);
      !Contains(l0 + Prefixed([l1] + StateLines(Raws(t.states), 0)), "\nTrace Description:")
  {
    NoSecondDescriptionText(OrNA(t.description), OrNA(t.traceType), t.states);
  }

  /** The printed text splits at "->" into the header and one piece per state. */
  lemma SplitPrinted(t: Trace)
    requires t.states != []
    requires FieldPrintable(t.description, "Trace Description:") && FieldPrintable(t.traceType, "Type:")
    requires forall k :: 0 <= k < |t.states| ==> StatePrintable(t.states[k])
    ensures var parts := [Head(OrNA(t.description), OrNA(t.traceType))] + Pieces(t.states, 0);
      Split(Join(parts, "->"), "->") == parts
  {
    var p0 := Head(OrNA(t.description), OrNA(t.traceType));
    var ps := Pieces(t.states, 0);
    var parts := [p0] + ps;
    HeadFree(OrNA(t.description), OrNA(t.traceType));
    forall k | 0 <= k < |parts| ensures !Contains(parts[k], "->") && !Contains(parts[k] + "-", "->") {
      if k > 0 {
        assert parts[k] == ps[k - 1];
        PieceFree(k - 1, t.states[k - 1], k - 1 == |ps| - 1);
      }
    }
    assert "->"[..1] == "-";
    SplitJoin(parts, "->");
  }

  /** `"\n".join(pprint())` is its own trace body, and splits at "->" into
      the header and one piece per state. */
  lemma PrintedPieces(t: Trace, toNumber: string -> Option<int>)
    requires t.states != []
    requires FieldPrintable(t.description, "Trace Description:") && FieldPrintable(t.traceType, "Type:")
    requires forall k :: 0 <= k < |t.states| ==> StatePrintable(t.states[k])
    ensures var text := Join(PPrint(t, false, false, toNumber), "\n");
      TraceBody(text) == text
      && Split(text, "->") == [Head(OrNA(t.description), OrNA(t.traceType))] + Pieces(t.states, 0)
  {
    var text := Join(PPrint(t, false, false, toNumber), "\n");
    PrintedText(t, toNumber);
    NoSecondDescription(t);
    assert Find(text, "\nTrace Description:", 0) == -1;
    assert text[0..] == text;
    SplitPrinted(t);
  }

  /** With no states `pprint` yields only the two header lines: the text
      holds no "->", so `Trace.parse` finds no state chunk and the empty
      list fails to unpack. */
  lemma PPrintNoStates(t: Trace, toNumber: string -> Option<int>)
    requires t.states == []
    requires FieldPrintable(t.description, "Trace Description:") && FieldPrintable(t.traceType, "Type:")
    ensures ParseTrace(Join(PPrint(t, false, false, toNumber), "\n")) == Err(ValueError)
  {
    var d, ty := OrNA(t.description), OrNA(t.traceType);
    var a, b := "Trace Description: " + d, "Trace Type: " + ty;
    var text := Join(PPrint(t, false, false, toNumber), "\n");
    assert PPrint(t, false, false, toNumber) == [a, b] + [];
    assert Raws(t.states) == [];
    JoinTwoLines(a, b, []);
    assert [b] + [] == [b];
    assert Prefixed([b]) == "\n" + b + Prefixed([]);
    assert text == a + "\n" + b;
    HeadLiteralsFree();
    NoneInConcat("Trace Description: ", d, "->");
    NoneInConcat("Trace Type: ", ty, "->");
    NoneInConcat(a, "\n", "->");
    NoneInConcat(a + "\n", b, "->");
    NoSecondDescription(t);
    assert Find(text, "\nTrace Description:", 0) == -1;
    assert TraceBody(text) == text;
    SplitAbsent(text, "->");
    assert StateChunks(text) == [];
  }

  /** The text each state is read from: its piece after the "<-". */
  function Bodies(ss: seq<StrState>): (r: seq<string>)
    ensures |r| == |ss| && forall k :: 0 <= k < |ss| ==> r[k] == Body(ss[k], k == |ss| - 1)
  {
    seq(|ss|, k requires 0 <= k < |ss| => Body(ss[k], k == |ss| - 1))
  }

  lemma {:induction false} AfterArrowsAll(chunks: seq<string>, texts: seq<string>)
    requires |chunks| == |texts|
    requires forall k :: 0 <= k < |chunks| ==>
      Contains(chunks[k], "<-") && Split(chunks[k], "<-")[1] == texts[k]
    ensures AfterArrows(chunks) == Ok(texts)
    decreases |chunks|
  {
    if chunks != [] {
      AfterArrowsAll(chunks[1..], texts[1..]);
      SplitCount(chunks[0], "<-");
      assert texts == [texts[0]] + texts[1..];
    }
  }

  lemma PieceBody(ss: seq<StrState>, k: nat)
    requires k < |ss| && StatePrintable(ss[k])
    ensures Contains(Pieces(ss, 0)[k], "<-") && Split(Pieces(ss, 0)[k], "<-")[1] == Bodies(ss)[k]
  {
    var p := Pieces(ss, 0)[k];
    PieceSplit(k, ss[k], k == |ss| - 1);
    SplitCount(p, "<-");
  }

  lemma ArrowsOfPieces(ss: seq<StrState>)
    requires ss != []
    requires forall k :: 0 <= k < |ss| ==> StatePrintable(ss[k])
    ensures AfterArrows(Pieces(ss, 0)) == Ok(Bodies(ss))
  {
    forall k | 0 <= k < |ss|
      ensures Contains(Pieces(ss, 0)[k], "<-") && Split(Pieces(ss, 0)[k], "<-")[1] == Bodies(ss)[k]
    {
      PieceBody(ss, k);
    }
    AfterArrowsAll(Pieces(ss, 0), Bodies(ss));
  }

  lemma ReadBodies(ss: seq<StrState>)
    requires ss != []
    requires forall k :: 0 <= k < |ss| ==> StatePrintable(ss[k])
    ensures ParseListOfStr(Bodies(ss)) == Ok((ss, {}))
  {
    var bodies := Bodies(ss);
    forall k | 0 <= k < |bodies| ensures StateOf(bodies[k]) == Ok((ss[k], false)) {
      ReadBody(ss[k], k == |ss| - 1);
    }
    ParseListOfStrMeaning(bodies);
    var parsed := ParseListOfStr(bodies);
    assert parsed.value.0 == ss;
    assert parsed.value.1 == {};
  }

  /** `Trace.parse` on text whose body splits at "->" into a header `p0`
      and chunks that read as `ss`. */
  lemma ParseSplitText(text: string, p0: string, chunks: seq<string>, d: string, ty: string, ss: seq<StrState>)
    requires Split(TraceBody(text), "->") == [p0] + chunks
    requires AfterArrows(chunks).Ok? && ParseListOfStr(AfterArrows(chunks).value) == Ok((ss, {}))
    requires var h := SplitLines(p0);
      |h| >= 2
      && |Split(h[0], "Trace Description:")| >= 2 && Strip(Split(h[0], "Trace Description:")[1]) == d
      && |Split(h[1], "Type:")| >= 2 && Strip(Split(h[1], "Type:")[1]) == ty
    ensures ParseTrace(text) == Ok(Trace(d, ty, ss, {}))
  {
    assert ([p0] + chunks)[1..] == chunks;
  }

  lemma HeadReads(d: string, ty: string)
    requires Trimmed(d) && NoLineBreak(d) && !Contains(d, "Trace Description:")
    requires Trimmed(ty) && NoLineBreak(ty) && !Contains(ty, "Type:")
    ensures var h := SplitLines(Head(d, ty));
      |h| >= 2
      && |Split(h[0], "Trace Description:")| >= 2 && Strip(Split(h[0], "Trace Description:")[1]) == d
      && |Split(h[1], "Type:")| >= 2 && Strip(Split(h[1], "Type:")[1]) == ty
  {
    var l0, l1 := "Trace Description: " + d, "Trace Type: " + ty;
    ReadHeader(d, ty);
  }

  lemma ParseHeaderAndChunks(text: string, d: string, ty: string, chunks: seq<string>, ss: seq<StrState>)
    requires Trimmed(d) && NoLineBreak(d) && !Contains(d, "Trace Description:")
    requires Trimmed(ty) && NoLineBreak(ty) && !Contains(ty, "Type:")
    requires Split(TraceBody(text), "->") == [Head(d, ty)] + chunks
    requires AfterArrows(chunks).Ok? && ParseListOfStr(AfterArrows(chunks).value) == Ok((ss, {}))
    ensures ParseTrace(text) == Ok(Trace(d, ty, ss, {}))
  {
    HeadReads(d, ty);
    ParseSplitText(text, Head(d, ty), chunks, d, ty, ss);
  }

  /** A trace printed by `pprint` (raw states, no loop marks) is read back
      by `Trace.parse` as the same trace, with "N/A" for an empty
      description or type. */
  lemma PPrintParse(t: Trace, toNumber: string -> Option<int>)
    requires t.states != []
    requires FieldPrintable(t.description, "Trace Description:") && FieldPrintable(t.traceType, "Type:")
    requires forall k :: 0 <= k < |t.states| ==> StatePrintable(t.states[k])
    ensures ParseTrace(Join(PPrint(t, false, false, toNumber), "\n"))
      == Ok(Trace(OrNA(t.description), OrNA(t.traceType), t.states, {}))
  {
    var text := Join(PPrint(t, false, false, toNumber), "\n");
    PrintedPieces(t, toNumber);
    ArrowsOfPieces(t.states);
    ReadBodies(t.states);
    ParseHeaderAndChunks(text, OrNA(t.description), OrNA(t.traceType), Pieces(t.states, 0), t.states);
  }
}

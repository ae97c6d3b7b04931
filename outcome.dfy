/** Parsing of nuXmv transcripts (pyxmv/outcome.py): states, counterexample
    traces, typed display values, and one Outcome per checked property. */
module Outcomes {
  import opened Base
  import opened PyStr
  import opened Dicts

  /** `Verdict`, whose `.value` is the word the verdict line prints. */
  datatype Verdict = TRUE | FALSE | UNKNOWN

  function VerdictValue(v: Verdict): string {
    match v
    case TRUE => "SUCCESSFUL"
    case FALSE => "FAILED"
    case UNKNOWN => "INCONCLUSIVE"
  }

  /** A string-valued state: variable name to the literal nuXmv printed. */
  type StrState = Dict<string>

  /** `Trace`; `loopIndexes` holds the positions of the states that start
      the repeating suffix of a lasso-shaped counterexample. */
  datatype Trace = Trace(description: string, traceType: string,
                         states: seq<StrState>, loopIndexes: set<int>)

  const LOOP_MARKER: string := "-- Loop starts here"

  // ------------------------------------------------------------ parse_state

  /** How `parse_state` reads one line once it is stripped. */
  datatype Line = Skipped | Assign(key: string, value: string) | Malformed

  function ReadLine(raw: string): (l: Line)
    ensures l.Assign? ==> Trimmed(l.key) && Trimmed(l.value)
    ensures l.Assign? ==> !Contains(l.key, "=") && !Contains(l.value, "=")
    ensures l.Skipped? <==> Strip(raw) == [] || StartsWith(Strip(raw), "--")
  {
    var line := Strip(raw);
    if line == [] || StartsWith(line, "--") then Skipped
    else
      var parts := Split(line, "=");
      if |parts| != 2 then Malformed
      else
        StripContains(parts[0], "=");
        StripContains(parts[1], "=");
        Assign(Strip(parts[0]), Strip(parts[1]))
  }

  /** Every line of a state, read. */
  function Classify(lines: seq<string>): (ls: seq<Line>)
    ensures |ls| == |lines| && forall i :: 0 <= i < |lines| ==> ls[i] == ReadLine(lines[i])
  {
    seq(|lines|, i requires 0 <= i < |lines| => ReadLine(lines[i]))
  }

  /** The assignments among `ls`, put into `state` in order; the first
      malformed line aborts with the ValueError of the tuple unpacking. */
  function Fill(state: StrState, ls: seq<Line>): (r: Result<StrState, Builtin>)
    ensures r.Err? ==> r.error == ValueError
    decreases |ls|
  {
    if ls == [] then Ok(state)
    else
      match ls[0]
      case Malformed => Err(ValueError)
      case Skipped => Fill(state, ls[1..])
      case Assign(k, v) => Fill(Put(state, k, v), ls[1..])
  }

  /** The loop flag: whether the LAST line, stripped, is the loop marker. */
  predicate LoopFlag(lines: seq<string>) {
    |lines| > 0 && StartsWith(Strip(lines[|lines| - 1]), LOOP_MARKER)
  }

  /** What `parse_state(text)` returns: the state and the loop flag. */
  function StateOf(text: string): Result<(StrState, bool), Builtin> {
    var lines := SplitLines(text);
    match Fill([], Classify(lines))
    case Err(e) => Err(e)
    case Ok(s) => Ok((s, LoopFlag(lines)))
  }

  /** The value line `l` assigns to `k`, if it assigns `k` at all. */
  function AssignedBy(l: Line, k: string): Option<string> {
    if l.Assign? && l.key == k then Some(l.value) else None
  }

  /** The value the last assignment to `k` in `ls` gives it, if any: read
      from the end, independently of the left-to-right fill. */
  function LastAssigned(ls: seq<Line>, k: string): Option<string>
    decreases |ls|
  {
    if ls == [] then None
    else
      var a := AssignedBy(ls[|ls| - 1], k);
      if a.Some? then a else LastAssigned(ls[..|ls| - 1], k)
  }

  predicate WellFormed(ls: seq<Line>) {
    forall i :: 0 <= i < |ls| ==> !ls[i].Malformed?
  }

  /** One step of the fill, at position `i`. */
  lemma FillStep(state: StrState, ls: seq<Line>, i: nat)
    requires i < |ls|
    ensures Fill(state, ls[i..]) ==
      match ls[i]
      case Malformed => Err(ValueError)
      case Skipped => Fill(state, ls[i + 1..])
      case Assign(k, v) => Fill(Put(state, k, v), ls[i + 1..])
  {
    assert ls[i..][1..] == ls[i + 1..];
  }

  /** Filling fails exactly on a malformed line. */
  lemma {:induction false} FillOk(state: StrState, ls: seq<Line>)
    ensures Fill(state, ls).Ok? <==> WellFormed(ls)
    decreases |ls|
  {
    if ls != [] {
      var next := if ls[0].Assign? then Put(state, ls[0].key, ls[0].value) else state;
      FillOk(next, ls[1..]);
      assert forall i :: 0 < i < |ls| ==> ls[i] == ls[1..][i - 1];
    }
  }

  /** After a successful fill every key holds the value of its last
      assignment, or its earlier value if the lines never assign it. */
  lemma {:induction false} FillLastWins(state: StrState, ls: seq<Line>, k: string)
    requires Fill(state, ls).Ok?
    ensures Get(Fill(state, ls).value, k) ==
      if LastAssigned(ls, k).Some? then LastAssigned(ls, k) else Get(state, k)
    decreases |ls|
  {
    if ls != [] {
      var l := ls[0];
      var next := if l.Assign? then Put(state, l.key, l.value) else state;
      FillLastWins(next, ls[1..], k);
      if l.Assign? {
        PutGet(state, l.key, l.value, k);
      }
      LastAssignedCons(l, ls[1..], k);
      assert ls == [l] + ls[1..];
    }
  }

  /** A successful fill of a dict with distinct keys gives one. */
  lemma {:induction false} FillUnique(state: StrState, ls: seq<Line>)
    requires UniqueKeys(state) && Fill(state, ls).Ok?
    ensures UniqueKeys(Fill(state, ls).value)
    decreases |ls|
  {
    if ls != [] && ls[0].Assign? {
      PutUnique(state, ls[0].key, ls[0].value);
      FillUnique(Put(state, ls[0].key, ls[0].value), ls[1..]);
    } else if ls != [] {
      FillUnique(state, ls[1..]);
    }
  }

  /** The backward scan, seen from the front. */
  lemma {:induction false} LastAssignedCons(first: Line, rest: seq<Line>, k: string)
    ensures LastAssigned([first] + rest, k) ==
      if LastAssigned(rest, k).Some? then LastAssigned(rest, k) else AssignedBy(first, k)
    decreases |rest|
  {
    var ls := [first] + rest;
    if rest != [] {
      var init := rest[..|rest| - 1];
      assert ls[..|ls| - 1] == [first] + init;
      LastAssignedCons(first, init, k);
    } else {
      assert ls[..|ls| - 1] == [];
    }
  }

  /** What `StateOf` means: it fails exactly on a malformed line, the
      flag is read from the last line, and each key holds its last
      assigned value. */
  lemma StateOfMeaning(text: string)
    ensures StateOf(text).Ok? <==> WellFormed(Classify(SplitLines(text)))
    ensures StateOf(text).Ok? ==> StateOf(text).value.1 == LoopFlag(SplitLines(text))
    ensures StateOf(text).Ok? ==> UniqueKeys(StateOf(text).value.0)
    ensures StateOf(text).Ok? ==>
      forall k :: Get(StateOf(text).value.0, k) == LastAssigned(Classify(SplitLines(text)), k)
  {
    var ls := Classify(SplitLines(text));
    FillOk([], ls);
    if StateOf(text).Ok? {
      FillUnique([], ls);
      forall k ensures Get(StateOf(text).value.0, k) == LastAssigned(ls, k) {
        FillLastWins([], ls, k);
      }
    }
  }

  /** `Trace.parse_state`: reads `text` line by line; every non-blank line
      that is not a comment must hold exactly one "=" and assigns the
      stripped right side to the stripped left side, a later assignment
      overriding; the loop flag is rewritten on every line, so only the
      last line decides it. */
  method ParseState(text: string) returns (r: Result<(StrState, bool), Builtin>)
    ensures r == StateOf(text)
    ensures r.Ok? <==> WellFormed(Classify(SplitLines(text)))
    ensures r.Ok? ==> r.value.1 == LoopFlag(SplitLines(text))
    ensures r.Ok? ==> forall k :: Get(r.value.0, k) == LastAssigned(Classify(SplitLines(text)), k)
  {
    var lines := SplitLines(text);
    ghost var ls := Classify(lines);
    var state: StrState := [];
    var loopStartsNext := false;
    var i := 0;
    assert ls[i..] == ls;
    while i < |lines|
      invariant 0 <= i <= |lines|
      invariant Fill([], ls) == Fill(state, ls[i..])
      invariant loopStartsNext == LoopFlag(lines[..i])
    {
      FillStep(state, ls, i);
      LoopFlagStep(lines, i);
      var line := Strip(lines[i]);
      loopStartsNext := StartsWith(line, LOOP_MARKER);
      if line != [] && !StartsWith(line, "--") {
        var parts := Split(line, "=");
        if |parts| != 2 {
          assert ls[i] == Malformed;
          StateOfMeaning(text);
          return Err(ValueError);
        }
        assert ls[i] == Assign(Strip(parts[0]), Strip(parts[1]));
        state := Put(state, Strip(parts[0]), Strip(parts[1]));
      } else {
        assert ls[i] == Skipped;
      }
      i := i + 1;
    }
    assert ls[i..] == [];
    assert lines[..i] == lines;
    r := Ok((state, loopStartsNext));
    StateOfMeaning(text);
  }

  /** The flag after one more line is that line's. */
  lemma LoopFlagStep(lines: seq<string>, i: nat)
    requires i < |lines|
    ensures LoopFlag(lines[..i + 1]) == StartsWith(Strip(lines[i]), LOOP_MARKER)
  {
    assert |lines[..i + 1]| - 1 == i && lines[..i + 1][i] == lines[i];
  }

  // ------------------------------------------------------ parse_list_of_str

  /** `parse_state` applied to every chunk, stopping at the first failure. */
  function StatesOf(chunks: seq<string>): (r: Result<seq<(StrState, bool)>, Builtin>)
    ensures r.Ok? ==> |r.value| == |chunks|
  {
    AllOk(MapSeq(StateOf, chunks))
  }

  /** The chunks read in order: all of them succeed exactly when each
      does, and then the k-th result is the k-th chunk's state. */
  lemma StatesOfMeaning(chunks: seq<string>)
    ensures StatesOf(chunks).Ok? <==> forall i :: 0 <= i < |chunks| ==> StateOf(chunks[i]).Ok?
    ensures StatesOf(chunks).Ok? ==>
      forall i :: 0 <= i < |chunks| ==> StatesOf(chunks).value[i] == StateOf(chunks[i]).value
  {
    var rs := MapSeq(StateOf, chunks);
    AllOkMeaning(rs);
    forall i | 0 <= i < |chunks| ensures rs[i] == StateOf(chunks[i]) {
      MapSeqAt(StateOf, chunks, i);
    }
  }

  /** `Trace.parse_list_of_str`: one state per chunk, in order, and the set
      of the indexes whose chunk ends with the loop marker; no chunks at
      all is the ValueError of unpacking an empty `zip`. */
  function ParseListOfStr(chunks: seq<string>): (r: Result<(seq<StrState>, set<int>), Builtin>)
    ensures r.Ok? <==> chunks != [] && StatesOf(chunks).Ok?
    ensures r.Ok? ==> |r.value.0| == |chunks| && forall i :: i in r.value.1 ==> 0 <= i < |chunks|
  {
    if chunks == [] then Err(ValueError)
    else
      match StatesOf(chunks)
      case Err(e) => Err(e)
      case Ok(ps) =>
        Ok((seq(|ps|, i requires 0 <= i < |ps| => ps[i].0), set i | 0 <= i < |ps| && ps[i].1))
  }

  /** The list is read when there is at least one chunk and every chunk
      reads as a state; then the i-th state is the i-th chunk's, and `i`
      is a loop index exactly when that chunk ends with the loop marker. */
  lemma ParseListOfStrMeaning(chunks: seq<string>)
    ensures ParseListOfStr(chunks).Ok? <==>
      chunks != [] && forall i :: 0 <= i < |chunks| ==> StateOf(chunks[i]).Ok?
    ensures ParseListOfStr(chunks).Ok? ==> forall i :: 0 <= i < |chunks| ==>
      ParseListOfStr(chunks).value.0[i] == StateOf(chunks[i]).value.0
      && (i in ParseListOfStr(chunks).value.1 <==> StateOf(chunks[i]).value.1)
  {
    StatesOfMeaning(chunks);
  }

  /** `Trace.of_states` */
  function OfStates(chunks: seq<string>, traceType: string, descr: string): (r: Result<Trace, Builtin>)
    ensures r.Ok? ==> r.value.description == descr && r.value.traceType == traceType
    ensures r.Ok? ==> |r.value.states| == |chunks| && forall i :: i in r.value.loopIndexes ==> 0 <= i < |chunks|
    ensures r.Err? <==> ParseListOfStr(chunks).Err?
  {
    match ParseListOfStr(chunks)
    case Err(e) => Err(e)
    case Ok((states, loops)) => Ok(Trace(descr, traceType, states, loops))
  }

  // ------------------------------------------------------------ Trace.parse

  /** `[s.split("<-")[1] for s in chunks]`: the text after the first "<-"
      of every chunk (up to a second "<-", if any). */
  function AfterArrows(chunks: seq<string>): (r: Result<seq<string>, Builtin>)
    ensures r.Ok? <==> forall i :: 0 <= i < |chunks| ==> Contains(chunks[i], "<-")
    ensures r.Ok? ==> |r.value| == |chunks|
    ensures r.Ok? ==> forall i :: 0 <= i < |chunks| ==> r.value[i] == Split(chunks[i], "<-")[1]
    ensures r.Err? ==> r.error == IndexError
    decreases |chunks|
  {
    if chunks == [] then Ok([])
    else
      var parts := Split(chunks[0], "<-");
      SplitCount(chunks[0], "<-");
      if |parts| < 2 then Err(IndexError)
      else
        match AfterArrows(chunks[1..])
        case Err(e) => Err(e)
        case Ok(rest) =>
          assert forall i :: 1 <= i < |chunks| ==> chunks[i] == chunks[1..][i - 1];
          Ok([parts[1]] + rest)
  }

  /** The text the header and the states are read from: everything after
      the newline that precedes "Trace Description:", or the whole text. */
  function TraceBody(text: string): string {
    var start := Find(text, "\nTrace Description:", 0);
    text[start + 1..]
  }

  /** The chunks that each open one state: the pieces after each "->". */
  function StateChunks(text: string): seq<string> {
    Split(TraceBody(text), "->")[1..]
  }

  /** `Trace.parse`: the description is the stripped text after
      "Trace Description:" on the first line, the type the stripped text
      after "Type:" on the second, and each "->" after them opens one
      state, read from the text after that chunk's first "<-". */
  function ParseTrace(text: string): (r: Result<Trace, Builtin>)
    ensures r.Ok? ==> |r.value.states| == |StateChunks(text)| > 0
    ensures r.Ok? ==> forall i :: i in r.value.loopIndexes ==> 0 <= i < |r.value.states|
    ensures r.Ok? ==> Trimmed(r.value.description) && Trimmed(r.value.traceType)
    ensures r.Ok? ==> AfterArrows(StateChunks(text)).Ok?
    ensures r.Ok? ==>
      ParseListOfStr(AfterArrows(StateChunks(text)).value) == Ok((r.value.states, r.value.loopIndexes))
    ensures !AfterArrows(StateChunks(text)).Ok? ==> r == Err(IndexError)
  {
    var pieces := Split(TraceBody(text), "->");
    var texts := AfterArrows(pieces[1..]);
    if texts.Err? then Err(texts.error)
    else
      var parsed := ParseListOfStr(texts.value);
      if parsed.Err? then Err(parsed.error)
      else
        var header := SplitLines(pieces[0]);
        if |header| < 2 then Err(ValueError)
        else
          var d, t := Split(header[0], "Trace Description:"), Split(header[1], "Type:");
          if |d| < 2 || |t| < 2 then Err(IndexError)
          else
            assert pieces[1..] == StateChunks(text);
            Ok(Trace(Strip(d[1]), Strip(t[1]), parsed.value.0, parsed.value.1))
  }

  // ------------------------------------------------------------ full_states

  /** The first `n` deltas of `states` merged left to right into one dict. */
  function Accumulate(states: seq<StrState>, n: nat): StrState
    requires n <= |states|
    decreases n
  {
    if n == 0 then [] else Merge(Accumulate(states, n - 1), states[n - 1])
  }

  /** The value the last of the first `n` deltas that has `k` gives it. */
  function LastValue(states: seq<StrState>, n: nat, k: string): Option<string>
    requires n <= |states|
    decreases n
  {
    if n == 0 then None
    else if k in Keys(states[n - 1]) then Get(states[n - 1], k)
    else LastValue(states, n - 1, k)
  }

  /** The merged dict holds, for each key, the value of the latest delta
      that mentions it. */
  lemma {:induction false} AccumulateGet(states: seq<StrState>, n: nat, k: string)
    requires n <= |states|
    requires forall i :: 0 <= i < |states| ==> UniqueKeys(states[i])
    ensures Get(Accumulate(states, n), k) == LastValue(states, n, k)
    decreases n
  {
    if n > 0 {
      AccumulateGet(states, n - 1, k);
      AccumulateStep(states, n, k);
    }
  }

  /** The n-th delta overrides what the first n - 1 accumulated. */
  lemma AccumulateStep(states: seq<StrState>, n: nat, k: string)
    requires 0 < n <= |states| && UniqueKeys(states[n - 1])
    ensures Get(Accumulate(states, n), k) ==
      if k in Keys(states[n - 1]) then Get(states[n - 1], k) else Get(Accumulate(states, n - 1), k)
  {
    MergeGet(Accumulate(states, n - 1), states[n - 1], k);
  }

  /** The snapshots `full_states` yields, as values. */
  function FullStatesOf(states: seq<StrState>): (r: seq<StrState>)
    ensures |r| == |states|
  {
    seq(|states|, i requires 0 <= i < |states| => Accumulate(states, i + 1))
  }

  /** The i-th full state holds, for each key, the value of the latest
      delta up to i that mentions it. */
  lemma FullStatesGet(states: seq<StrState>)
    requires forall i :: 0 <= i < |states| ==> UniqueKeys(states[i])
    ensures forall i, k :: 0 <= i < |states| ==> Get(FullStatesOf(states)[i], k) == LastValue(states, i + 1, k)
  {
    forall i, k | 0 <= i < |states| ensures Get(FullStatesOf(states)[i], k) == LastValue(states, i + 1, k) {
      FullStateGet(states, i, k);
    }
  }

  lemma FullStateGet(states: seq<StrState>, i: nat, k: string)
    requires i < |states|
    requires forall i :: 0 <= i < |states| ==> UniqueKeys(states[i])
    ensures Get(FullStatesOf(states)[i], k) == LastValue(states, i + 1, k)
  {
    AccumulateGet(states, i + 1, k);
  }

  /** `Trace.full_states`: one snapshot of the accumulating dict per state
      (the source yields the same dict object each time; here each yield
      is the value it has at that moment). */
  method FullStates(states: seq<StrState>) returns (snaps: seq<StrState>)
    requires forall i :: 0 <= i < |states| ==> UniqueKeys(states[i])
    ensures snaps == FullStatesOf(states)
    ensures forall i, k :: 0 <= i < |states| ==> Get(snaps[i], k) == LastValue(states, i + 1, k)
  {
    var accum: StrState := [];
    snaps := [];
    for i := 0 to |states|
      invariant |snaps| == i
      invariant accum == Accumulate(states, i)
      invariant forall j :: 0 <= j < i ==> snaps[j] == FullStatesOf(states)[j]
    {
      accum := Merge(accum, states[i]);
      snaps := snaps + [accum];
    }
    FullStatesGet(states);
  }

  /** The key set of the full states only grows along the trace. */
  lemma {:induction false} FullStateKeysGrow(states: seq<StrState>, i: nat, j: nat, k: string)
    requires i <= j <= |states|
    requires k in Keys(Accumulate(states, i))
    ensures k in Keys(Accumulate(states, j))
    decreases j
  {
    if j > i {
      FullStateKeysGrow(states, i, j - 1, k);
      MergeKeys(Accumulate(states, j - 1), states[j - 1], k);
    }
  }

  // ---------------------------------------------- parsed_states, get_states

  /** A displayed value: what `try_parse` turns a literal into. */
  datatype Value = VBool(b: bool) | VInt(i: int) | VStr(s: string)

  /** A state as `get_states` yields it: raw, or with typed values. */
  type ParsedState = seq<(string, Value)>
  datatype State = Raw(raw: StrState) | Parsed(parsed: ParsedState)

  /** `try_parse`. `toNumber(v)` stands for `int(float(v))` on a literal
      `float` accepts, and is None where `float` raises ValueError. */
  function TryParse(v: string, toNumber: string -> Option<int>): (r: Value)
    ensures r.VBool? <==> v == "TRUE" || v == "FALSE"
    ensures r.VBool? ==> r.b == (v == "TRUE")
    ensures r.VStr? <==> v != "TRUE" && v != "FALSE" && toNumber(v).None?
    ensures r.VStr? ==> r.s == v
  {
    if v == "TRUE" || v == "FALSE" then VBool(v == "TRUE")
    else match toNumber(v)
      case None => VStr(v)
      case Some(n) => VInt(n)
  }

  /** How an f-string shows a value: `str` of a bool or int, the text of a
      string. */
  function Show(v: Value): string {
    match v
    case VBool(b) => if b then "True" else "False"
    case VInt(i) => IntToString(i)
    case VStr(s) => s
  }

  /** A literal that is neither a boolean nor a number shows unchanged. */
  lemma ShowTryParse(v: string, toNumber: string -> Option<int>)
    requires toNumber(v).None?
    ensures Show(TryParse(v, toNumber)) == if v == "TRUE" then "True" else if v == "FALSE" then "False" else v
  {
  }

  /** `{k: try_parse(v) for k, v in s.items()}` */
  function ParseValues(s: StrState, toNumber: string -> Option<int>): (p: ParsedState)
    ensures |p| == |s|
    ensures forall i :: 0 <= i < |s| ==> p[i].0 == s[i].0 && p[i].1 == TryParse(s[i].1, toNumber)
  {
    seq(|s|, i requires 0 <= i < |s| => (s[i].0, TryParse(s[i].1, toNumber)))
  }

  /** The states `get_states` starts from: the deltas, or the full states. */
  function BaseStates(t: Trace, full: bool): (r: seq<StrState>)
    ensures |r| == |t.states|
  {
    if full then FullStatesOf(t.states) else t.states
  }

  /** `Trace.parsed_states`: the (full) states with every value coerced;
      the trace itself is a value, so it cannot change. */
  function ParsedStates(t: Trace, full: bool, toNumber: string -> Option<int>): (r: seq<ParsedState>)
    ensures |r| == |t.states|
  {
    var b := BaseStates(t, full);
    seq(|b|, i requires 0 <= i < |b| => ParseValues(b[i], toNumber))
  }

  /** `Trace.get_states`: with `parse` it yields the parsed states and then,
      since the raw yield has no `else`, the raw states as well. */
  function GetStates(t: Trace, full: bool, parse: bool, toNumber: string -> Option<int>): (r: seq<State>)
  {
    var b := BaseStates(t, full);
    var p := ParsedStates(t, full, toNumber);
    (if parse then seq(|p|, i requires 0 <= i < |p| => Parsed(p[i])) else [])
      + seq(|b|, i requires 0 <= i < |b| => Raw(b[i]))
  }

  /** Without `parse` every state is yielded once, raw; with it, twice:
      first parsed, then raw, in the same order. */
  lemma GetStatesYieldsTwice(t: Trace, full: bool, parse: bool, toNumber: string -> Option<int>)
    ensures var r, n := GetStates(t, full, parse, toNumber), |t.states|;
      |r| == (if parse then 2 * n else n)
      && (forall i :: 0 <= i < n ==> r[|r| - n + i] == Raw(BaseStates(t, full)[i]))
      && (parse ==> forall i :: 0 <= i < n ==>
            r[i] == Parsed(ParseValues(BaseStates(t, full)[i], toNumber)))
  {
  }

  // ------------------------------------------------------------------ pprint

  function OrNA(s: string): string {
    if s == [] then "N/A" else s
  }

  /** The lines shown for one state's entries. */
  function EntryLines(s: State): (r: seq<string>)
    ensures |r| == if s.Raw? then |s.raw| else |s.parsed|
  {
    match s
    case Raw(d) => seq(|d|, j requires 0 <= j < |d| => "    " + d[j].0 + " = " + d[j].1)
    case Parsed(d) => seq(|d|, j requires 0 <= j < |d| => "    " + d[j].0 + " = " + Show(d[j].1))
  }

  function StateHeader(i: nat): string {
    "  -> State: 1." + NatToString(i) + " <-"
  }

  /** The lines for `ss`, numbered from `i`. */
  function StateLines(ss: seq<State>, i: nat): seq<string>
    decreases |ss|
  {
    if ss == [] then [] else [StateHeader(i)] + EntryLines(ss[0]) + StateLines(ss[1..], i + 1)
  }

  /** `Trace.pprint`, as the list of lines it yields. */
  function PPrint(t: Trace, full: bool, parse: bool, toNumber: string -> Option<int>): (r: seq<string>)
    ensures |r| >= 2
  {
    ["Trace Description: " + OrNA(t.description), "Trace Type: " + OrNA(t.traceType)]
      + (if t.states != [] then StateLines(GetStates(t, full, parse, toNumber), 0) else [])
  }

  // ----------------------------------------------------------- Outcome.parse

  /** `Outcome`; `unparsed` is the slice of the transcript it was read from. */
  datatype Outcome = Outcome(logic: string, specification: string, verdict: Verdict,
                             trace: Option<Trace>, unparsed: string)

  /** What a generator produced: the items yielded before it stopped, and
      the exception that stopped it, if any. */
  datatype Yielded<T> = Yielded(items: seq<T>, raised: Option<Builtin>)

  const PHRASES: seq<string> := ["is true", "is false", "is unknown"]

  /** A verdict phrase starts at `i`. */
  predicate VerdictAt(text: string, i: int) {
    OccursAt(text, "is true", i) || OccursAt(text, "is false", i) || OccursAt(text, "is unknown", i)
  }

  /** The positions of the verdict phrases at or after `i`, scanning left
      to right. */
  function MarkersFrom(text: string, i: nat): (r: seq<int>)
    ensures forall k :: 0 <= k < |r| ==> i <= r[k] < |text| && VerdictAt(text, r[k])
    ensures forall k, l :: 0 <= k < l < |r| ==> r[k] < r[l]
    ensures forall j :: i <= j && VerdictAt(text, j) ==> j in r
    decreases |text| - i
  {
    if i >= |text| then []
    else (if VerdictAt(text, i) then [i] else []) + MarkersFrom(text, i + 1)
  }

  /** Where the verdict phrases of `text` start, in increasing order. */
  function Markers(text: string): (r: seq<int>)
    ensures forall k :: 0 <= k < |r| ==> 0 <= r[k] < |text| && VerdictAt(text, r[k])
    ensures forall k, l :: 0 <= k < l < |r| ==> r[k] < r[l]
  {
    MarkersFrom(text, 0)
  }

  /** Every verdict phrase of `text` is among its markers. */
  lemma MarkersComplete(text: string, j: int)
    requires 0 <= j && VerdictAt(text, j)
    ensures j in Markers(text)
  {
  }

  /** The positions at or after `i` where `p` occurs, as the repeated
      `find(p, x + 1)` calls discover them. */
  function Occurrences(text: string, p: string, i: nat): seq<int>
    decreases |text| + 1 - i
  {
    var x := Find(text, p, i);
    if x == -1 then [] else [x] + Occurrences(text, p, x + 1)
  }

  /** Scanning from `i` finds `i` itself first if `p` occurs there, and
      otherwise nothing before `i + 1`. */
  lemma OccurrencesStep(text: string, p: string, i: nat)
    requires |p| > 0 && i < |text|
    ensures Occurrences(text, p, i) ==
      (if OccursAt(text, p, i) then [i] else []) + Occurrences(text, p, i + 1)
  {
    if OccursAt(text, p, i) {
      assert Find(text, p, i) == i;
    } else {
      FindSkip(text, p, i);
    }
  }

  /** Where `p` does not occur, the search goes on at the next position. */
  lemma FindSkip(s: string, p: string, i: nat)
    requires !OccursAt(s, p, i)
    ensures Find(s, p, i) == Find(s, p, i + 1)
  {
  }

  /** The scan from `i` is the scan from the first occurrence at or after
      `i`, or nothing. */
  lemma OccurrencesFromFound(text: string, p: string, i: nat)
    ensures Occurrences(text, p, i) ==
      (var x := Find(text, p, i); if x == -1 then [] else Occurrences(text, p, x))
  {
    var x := Find(text, p, i);
    if x != -1 {
      OccurrencesAt(text, p, x);
    }
  }

  /** An occurrence at `x` is the first thing the scan from `x` finds. */
  lemma OccurrencesAt(text: string, p: string, x: nat)
    requires OccursAt(text, p, x)
    ensures Occurrences(text, p, x) == [x] + Occurrences(text, p, x + 1)
  {
    assert Find(text, p, x) == x;
  }

  /** No two verdict phrases start at the same place. */
  lemma PhrasesExclusive(text: string, i: int)
    ensures !(OccursAt(text, "is true", i) && OccursAt(text, "is false", i))
    ensures !(OccursAt(text, "is true", i) && OccursAt(text, "is unknown", i))
    ensures !(OccursAt(text, "is false", i) && OccursAt(text, "is unknown", i))
  {
    if 0 <= i && i + 4 <= |text| {
      if OccursAt(text, "is true", i) { assert text[i..i + 7][3] == text[i + 3]; }
      if OccursAt(text, "is false", i) { assert text[i..i + 8][3] == text[i + 3]; }
      if OccursAt(text, "is unknown", i) { assert text[i..i + 10][3] == text[i + 3]; }
    }
  }

  /** The occurrences of the three phrases, found phrase by phrase. */
  function AllOccurrences(text: string, phrases: seq<string>): seq<int>
    decreases |phrases|
  {
    if phrases == [] then []
    else AllOccurrences(text, phrases[..|phrases| - 1]) + Occurrences(text, phrases[|phrases| - 1], 0)
  }

  /** Collected phrase by phrase, the positions are those of the left to
      right scan, each once. */
  lemma {:induction false} OccurrencesAreMarkers(text: string, i: nat)
    requires i <= |text|
    ensures multiset(Occurrences(text, "is true", i)) + multiset(Occurrences(text, "is false", i))
            + multiset(Occurrences(text, "is unknown", i)) == multiset(MarkersFrom(text, i))
    decreases |text| - i
  {
    if i == |text| {
      assert Find(text, "is true", i) == -1;
      assert Find(text, "is false", i) == -1;
      assert Find(text, "is unknown", i) == -1;
    } else {
      OccurrencesAreMarkers(text, i + 1);
      var ht := OccurrenceHere(text, "is true", i);
      var hf := OccurrenceHere(text, "is false", i);
      var hu := OccurrenceHere(text, "is unknown", i);
      Regroup(ht, hf, hu, multiset(Occurrences(text, "is true", i + 1)),
        multiset(Occurrences(text, "is false", i + 1)), multiset(Occurrences(text, "is unknown", i + 1)));
      var here := if VerdictAt(text, i) then [i] else [];
      PhrasesExclusive(text, i);
      assert multiset(here) == ht + hf + hu;
      assert MarkersFrom(text, i) == here + MarkersFrom(text, i + 1);
      assert multiset(MarkersFrom(text, i)) == multiset(here) + multiset(MarkersFrom(text, i + 1));
    }
  }

  lemma Regroup(a: multiset<int>, b: multiset<int>, c: multiset<int>,
                x: multiset<int>, y: multiset<int>, z: multiset<int>)
    ensures (a + x) + (b + y) + (c + z) == (a + b + c) + (x + y + z)
  {
  }

  /** One step of the scan for `p`, as multisets: what position `i`
      contributes. */
  lemma OccurrenceHere(text: string, p: string, i: nat) returns (here: multiset<int>)
    requires |p| > 0 && i < |text|
    ensures here == multiset(if OccursAt(text, p, i) then [i] else [])
    ensures multiset(Occurrences(text, p, i)) == here + multiset(Occurrences(text, p, i + 1))
  {
    OccurrencesStep(text, p, i);
    here := multiset(if OccursAt(text, p, i) then [i] else []);
  }

  lemma AllOccurrencesAreMarkers(text: string)
    ensures multiset(AllOccurrences(text, PHRASES)) == multiset(Markers(text))
  {
    var t, f := ["is true"], ["is true", "is false"];
    assert PHRASES[..2] == f && f[..1] == t && t[..0] == [];
    assert AllOccurrences(text, t) == Occurrences(text, "is true", 0);
    assert AllOccurrences(text, PHRASES) == AllOccurrences(text, f) + Occurrences(text, "is unknown", 0);
    OccurrencesAreMarkers(text, 0);
  }

  // -------------------------------------------------------------- sorted()

  predicate Ascending(s: seq<int>) {
    forall i, j :: 0 <= i < j < |s| ==> s[i] <= s[j]
  }

  function Insert(x: int, s: seq<int>): (r: seq<int>)
    requires Ascending(s)
    ensures Ascending(r) && multiset(r) == multiset(s) + multiset{x}
  {
    if s == [] || x <= s[0] then [x] + s
    else
      var t := Insert(x, s[1..]);
      InsertBehind(x, s, t);
      [s[0]] + t
  }

  /** Putting the head of `s` in front of `x` inserted into the rest of `s`
      keeps the order when `x` is greater than that head. */
  lemma InsertBehind(x: int, s: seq<int>, t: seq<int>)
    requires Ascending(s) && s != [] && s[0] < x
    requires Ascending(t) && multiset(t) == multiset(s[1..]) + multiset{x}
    ensures Ascending([s[0]] + t) && multiset([s[0]] + t) == multiset(s) + multiset{x}
  {
    assert s == [s[0]] + s[1..];
    forall j | 0 <= j < |t| ensures s[0] <= t[j] {
      assert t[j] in multiset(t);
      if t[j] != x {
        assert t[j] in multiset(s[1..]);
        var i :| 0 <= i < |s[1..]| && s[1..][i] == t[j];
        assert s[i + 1] == t[j];
      }
    }
  }

  /** `sorted`, as an insertion sort. */
  function SortAscending(s: seq<int>): (r: seq<int>)
    ensures Ascending(r) && multiset(r) == multiset(s)
  {
    if s == [] then []
    else
      assert s == [s[0]] + s[1..];
      Insert(s[0], SortAscending(s[1..]))
  }

  /** Two ascending arrangements of one multiset start alike. */
  lemma SameHead(a: seq<int>, b: seq<int>)
    requires Ascending(a) && Ascending(b) && multiset(a) == multiset(b) && a != []
    ensures b != [] && a[0] == b[0]
  {
    assert a[0] in multiset(b);
    var i :| 0 <= i < |b| && b[i] == a[0];
    assert b[0] in multiset(a);
    var j :| 0 <= j < |a| && a[j] == b[0];
  }

  lemma DropHead(a: seq<int>)
    requires a != []
    ensures multiset(a[1..]) == multiset(a) - multiset{a[0]}
  {
    assert a == [a[0]] + a[1..];
  }

  /** An ascending arrangement of a multiset is unique. */
  lemma {:induction false} AscendingUnique(a: seq<int>, b: seq<int>)
    requires Ascending(a) && Ascending(b) && multiset(a) == multiset(b)
    ensures a == b
    decreases |a|
  {
    if a != [] {
      SameHead(a, b);
      DropHead(a);
      DropHead(b);
      AscendingUnique(a[1..], b[1..]);
      assert a == [a[0]] + a[1..] && b == [b[0]] + b[1..];
    } else {
      assert |multiset(b)| == 0;
    }
  }

  // ------------------------------------------------------ slicing, reading

  /** Where each report starts: the last "--" before its verdict phrase,
      or -1 when there is none. */
  function BlockStarts(text: string): (r: seq<int>)
    ensures |r| == |Markers(text)|
  {
    var m := Markers(text);
    seq(|m|, k requires 0 <= k < |m| => RFind(text, "--", m[k]))
  }

  /** The slices `pairwise([*places, len(text)])` cuts. */
  function Slices(text: string): (r: seq<string>)
    ensures |r| == |Markers(text)|
  {
    Tiles(text, BlockStarts(text) + [|text|])
  }

  /** The verdict of a slice: "is true" wins over "is unknown", which wins
      over "is false" (and a slice with neither reads as FALSE). */
  function VerdictOf(slice: string): (v: Verdict)
    ensures v == TRUE <==> Contains(slice, "is true")
    ensures v == UNKNOWN <==> !Contains(slice, "is true") && Contains(slice, "is unknown")
  {
    if Contains(slice, "is true") then TRUE
    else if Contains(slice, "is unknown") then UNKNOWN
    else FALSE
  }

  /** A report's header: the slice's first line, stripped (without the
      slice's last character when it has no newline, as `[:-1]` does). */
  function Header(slice: string): string {
    Strip(Slice(slice, 0, Find(slice, "\n", 0)))
  }

  /** One report read from its slice: the logic is the word after the
      header's first three characters, the specification the header's text
      after "specification" with the verdict phrases removed; a trace is
      read only for a FALSE verdict. */
  function OutcomeOf(slice: string): (r: Result<Outcome, Builtin>)
    ensures r.Ok? ==> r.value.unparsed == slice && r.value.verdict == VerdictOf(slice)
    ensures r.Ok? ==> (r.value.trace.Some? <==> r.value.verdict == FALSE)
    ensures r.Ok? ==> Trimmed(r.value.logic) && Trimmed(r.value.specification)
  {
    var verdict := VerdictOf(slice);
    var header := Header(slice);
    var logic := LogicOf(header);
    match SpecOf(header)
    case Err(e) => Err(e)
    case Ok(spec) =>
      if verdict == FALSE then
        match ParseTrace(slice)
        case Err(e) => Err(e)
        case Ok(t) => Ok(Outcome(logic, spec, verdict, Some(t), slice))
      else Ok(Outcome(logic, spec, verdict, None, slice))
  }

  /** `header[3:header.find(" ", 3)].strip()`: the logic a header names. */
  function LogicOf(header: string): (r: string)
    ensures Trimmed(r)
  {
    Strip(Slice(header, 3, Find(header, " ", 3)))
  }

  /** `header.split("specification")[1]` with the verdict phrases removed
      and stripped, or the IndexError of a header without "specification". */
  function SpecOf(header: string): (r: Result<string, Builtin>)
    ensures r.Err? <==> !Contains(header, "specification")
    ensures r.Err? ==> r.error == IndexError
    ensures r.Ok? ==> Trimmed(r.value)
  {
    var parts := Split(header, "specification");
    SplitCount(header, "specification");
    if |parts| < 2 then Err(IndexError)
    else Ok(Strip(RemoveAll(RemoveAll(RemoveAll(parts[1], "is true"), "is false"), "is unknown")))
  }

  /** Reading a report whose header lacks "specification" fails with an
      IndexError. */
  lemma OutcomeOfNoSpecification(slice: string)
    requires !Contains(Header(slice), "specification")
    ensures OutcomeOf(slice) == Err(IndexError)
  {
    SplitCount(Header(slice), "specification");
  }

  /** With "specification" in the header, reading a report fails exactly
      when its verdict is FALSE and its trace does not parse. */
  lemma OutcomeOfFails(slice: string)
    requires Contains(Header(slice), "specification")
    ensures OutcomeOf(slice).Err? <==> VerdictOf(slice) == FALSE && ParseTrace(slice).Err?
  {
    SplitCount(Header(slice), "specification");
  }

  /** A report's trace is its slice, parsed. */
  lemma OutcomeOfTrace(slice: string)
    requires OutcomeOf(slice).Ok? && OutcomeOf(slice).value.trace.Some?
    ensures ParseTrace(slice) == Ok(OutcomeOf(slice).value.trace.value)
  {
  }

  /** The header nuXmv prints for a checked property: "-- ", the logic,
      " specification", the property padded with whitespace, and the
      verdict phrase. */
  function HeaderLine(logic: string, a: string, prop: string, b: string, v: string): string {
    "-- " + logic + " specification" + a + prop + b + v
  }

  /** Reading a report whose header nuXmv printed for `prop`: "specification"
      is found, the logic comes back as the word after "-- ", and the
      specification as the property, provided the logic is one word
      without "specification", the property is trimmed and holds neither
      "specification" nor a verdict phrase, and whitespace separates it
      from the verdict. */
  lemma OutcomeOfHeader(slice: string, logic: string, a: string, prop: string, b: string, v: string)
    requires Header(slice) == HeaderLine(logic, a, prop, b, v)
    requires logic != [] && NoSpace(logic) && !Contains(logic, "specification")
    requires AllSpace(a) && AllSpace(b) && b != [] && Trimmed(prop)
    requires !Contains(prop, "specification")
    requires forall k :: 0 <= k < |PHRASES| ==> !Contains(prop, PHRASES[k])
    requires v in PHRASES
    ensures Contains(Header(slice), "specification")
    ensures OutcomeOf(slice).Ok? ==> OutcomeOf(slice).value.logic == logic && OutcomeOf(slice).value.specification == prop
  {
    HeaderFields(logic, a, prop, b, v);
    OutcomeOfFields(slice);
  }

  /** A report read from its slice carries its header's logic and
      specification. */
  lemma OutcomeOfFields(slice: string)
    ensures OutcomeOf(slice).Ok? ==> OutcomeOf(slice).value.logic == LogicOf(Header(slice))
    ensures OutcomeOf(slice).Ok? ==> SpecOf(Header(slice)) == Ok(OutcomeOf(slice).value.specification)
  {
    var h := Header(slice);
    match SpecOf(h)
    case Err(_) =>
    case Ok(spec) =>
      var verdict := VerdictOf(slice);
      if verdict == FALSE {
        match ParseTrace(slice)
        case Err(_) =>
        case Ok(t) =>
          assert OutcomeOf(slice) == Ok(Outcome(LogicOf(h), spec, verdict, Some(t), slice));
      } else {
        assert OutcomeOf(slice) == Ok(Outcome(LogicOf(h), spec, verdict, None, slice));
      }
  }

  /** The logic and the specification read from a header nuXmv printed. */
  lemma HeaderFields(logic: string, a: string, prop: string, b: string, v: string)
    requires logic != [] && NoSpace(logic) && !Contains(logic, "specification")
    requires AllSpace(a) && AllSpace(b) && b != [] && Trimmed(prop)
    requires !Contains(prop, "specification")
    requires forall k :: 0 <= k < |PHRASES| ==> !Contains(prop, PHRASES[k])
    requires v in PHRASES
    ensures LogicOf(HeaderLine(logic, a, prop, b, v)) == logic
    ensures SpecOf(HeaderLine(logic, a, prop, b, v)) == Ok(prop)
  {
    var rest := "specification" + a + prop + b + v;
    assert HeaderLine(logic, a, prop, b, v) == "-- " + logic + " " + rest;
    HeaderLogic(logic, rest);
    HeaderSpecification(logic, a, prop, b, v);
  }

  /** `header[3:header.find(" ", 3)].strip()` is the word after "-- ". */
  lemma HeaderLogic(logic: string, rest: string)
    requires logic != [] && NoSpace(logic)
    ensures LogicOf("-- " + logic + " " + rest) == logic
  {
    var h := "-- " + logic + " " + rest;
    var e := 3 + |logic|;
    assert h[e] == ' ' && OccursAt(h, " ", e);
    forall j | 3 <= j < e ensures !OccursAt(h, " ", j) {
      assert h[j] == logic[j - 3];
    }
    FindFirst(h, " ", 3, e);
    assert h[3..e] == logic;
    StripTrimmed(logic);
  }

  /** The specification read back from such a header is the property. */
  lemma HeaderSpecification(logic: string, a: string, prop: string, b: string, v: string)
    requires logic != [] && NoSpace(logic) && !Contains(logic, "specification")
    requires AllSpace(a) && AllSpace(b) && b != [] && Trimmed(prop)
    requires !Contains(prop, "specification")
    requires forall k :: 0 <= k < |PHRASES| ==> !Contains(prop, PHRASES[k])
    requires v in PHRASES
    ensures SpecOf(HeaderLine(logic, a, prop, b, v)) == Ok(prop)
  {
    HeaderSplit(logic, a, prop, b, v);
    assert PHRASES[0] == "is true" && PHRASES[1] == "is false" && PHRASES[2] == "is unknown";
    NoneOutside(a, prop, b, "is true");
    NoneOutside(a, prop, b, "is false");
    NoneOutside(a, prop, b, "is unknown");
    PhraseRemoved(a + prop + b, v);
    StripPadded(a, prop, b);
  }

  /** The text after the first "specification" of such a header is the
      padded property and the verdict: no other "specification" follows. */
  lemma HeaderSplit(logic: string, a: string, prop: string, b: string, v: string)
    requires logic != [] && NoSpace(logic) && !Contains(logic, "specification")
    requires AllSpace(a) && AllSpace(b) && b != []
    requires !Contains(prop, "specification")
    requires v in PHRASES
    ensures var parts := Split(HeaderLine(logic, a, prop, b, v), "specification");
      |parts| >= 2 && parts[1] == a + prop + b + v
  {
    var sep := "specification";
    var x := "-- " + logic + " ";
    var y := a + prop + b + v;
    assert HeaderLine(logic, a, prop, b, v) == x + sep + y;
    FirstSpecification(logic);
    assert sep[..|sep| - 1] == "specificatio";
    SplitFirst(x, sep, y);
    TailHasNoSpecification(a, prop, b, v);
    SplitAbsent(y, sep);
  }

  /** Whitespace before the verdict keeps "specification" out of the
      text after the property's own. */
  lemma TailHasNoSpecification(a: string, prop: string, b: string, v: string)
    requires AllSpace(a) && AllSpace(b) && b != []
    requires !Contains(prop, "specification")
    requires v in PHRASES
    ensures !Contains(a + prop + b + v, "specification")
  {
    var sep := "specification";
    var b0, c := b[..|b| - 1], b[|b| - 1];
    NoneOutside(a, prop, b0, sep);
    PhraseLacks(v, sep, 1, 'p');
    assert IsSpace(c);
    NoneAroundChar(a + prop + b0, c, v, sep);
    assert a + prop + b + v == (a + prop + b0) + [c] + v;
  }

  /** No "specification" starts within "-- " + logic + " " when the logic
      has none. */
  lemma FirstSpecification(logic: string)
    requires NoSpace(logic) && !Contains(logic, "specification")
    ensures !Contains("-- " + logic + " " + "specificatio", "specification")
  {
    var sep := "specification";
    NoneOutside("-- ", logic, " specificatio", sep);
    assert "-- " + logic + " " + "specificatio" == "-- " + logic + " specificatio";
  }

  /** A verdict phrase lacks `w`'s letter `w[i]`, so it holds no `w`. */
  lemma PhraseLacks(v: string, w: string, i: nat, ch: char)
    requires v in PHRASES && i < |w| && w[i] == ch
    requires ch !in "is true" && ch !in "is false" && ch !in "is unknown"
    ensures !Contains(v, w)
  {
    assert v == "is true" || v == "is false" || v == "is unknown";
    AvoidsChar(v, w, i);
  }

  /** No verdict phrase holds one that is removed before it. */
  lemma PhrasesApart()
    ensures !Contains("is false", "is true")
    ensures !Contains("is unknown", "is true") && !Contains("is unknown", "is false")
  {
    var f, u := "is false", "is unknown";
    assert "is true"[3] == 't' && "is false"[3] == 'f';
    assert Avoids(f, 't') by {
      forall i | 0 <= i < |f| ensures f[i] != 't' {
        assert f[i] in {'i', 's', ' ', 'f', 'a', 'l', 'e'};
      }
    }
    assert Avoids(u, 't') && Avoids(u, 'f') by {
      forall i | 0 <= i < |u| ensures u[i] != 't' && u[i] != 'f' {
        assert u[i] in {'i', 's', ' ', 'u', 'n', 'k', 'o', 'w'};
      }
    }
    AvoidsChar(f, "is true", 3);
    AvoidsChar(u, "is true", 3);
    AvoidsChar(u, "is false", 3);
  }

  /** Removing the three phrases, in order, from text without any of them
      followed by one verdict phrase leaves the text. */
  lemma PhraseRemoved(z: string, v: string)
    requires !Contains(z, "is true") && !Contains(z, "is false") && !Contains(z, "is unknown")
    requires v in PHRASES
    ensures RemoveAll(RemoveAll(RemoveAll(z + v, "is true"), "is false"), "is unknown") == z
  {
    assert FirstUnique("is true") && FirstUnique("is false") && FirstUnique("is unknown");
    PhrasesApart();
    if v == "is true" {
      RemoveSuffix(z, v);
      RemoveAbsent(z, "is false");
      RemoveAbsent(z, "is unknown");
    } else if v == "is false" {
      NoStraddle(z, v, "is true");
      RemoveAbsent(z + v, "is true");
      RemoveSuffix(z, v);
      RemoveAbsent(z, "is unknown");
    } else {
      assert v == "is unknown";
      NoStraddle(z, v, "is true");
      RemoveAbsent(z + v, "is true");
      NoStraddle(z, v, "is false");
      RemoveAbsent(z + v, "is false");
      RemoveSuffix(z, v);
    }
  }

  /** A generator that yields the values of `results` in order and stops
      at the first error, from the point where `done` were yielded. */
  function CollectFrom<T>(done: seq<T>, results: seq<Result<T, Builtin>>): (y: Yielded<T>)
    ensures |done| <= |y.items| <= |done| + |results|
    ensures forall k :: 0 <= k < |done| ==> y.items[k] == done[k]
    ensures forall k :: |done| <= k < |y.items| ==> results[k - |done|] == Ok(y.items[k])
    ensures y.raised.None? <==> |y.items| == |done| + |results|
    ensures y.raised.Some? ==> results[|y.items| - |done|] == Err(y.raised.value)
    decreases |results|
  {
    if results == [] then Yielded(done, None)
    else if results[0].Err? then Yielded(done, Some(results[0].error))
    else
      var y := CollectFrom(done + [results[0].value], results[1..]);
      assert forall j :: 0 <= j < |results[1..]| ==> results[1..][j] == results[j + 1];
      y
  }

  /** What `Outcome.parse(text)` yields: at most one report per verdict
      phrase, all of them unless one fails to read, each read from the
      slice of its own phrase, in the order of the phrases. */
  function OutcomesOf(text: string): Yielded<Outcome> {
    CollectFrom([], Reports(text))
  }

  /** Every slice read as a report, in order. */
  function Reports(text: string): (r: seq<Result<Outcome, Builtin>>)
    ensures |r| == |Markers(text)|
  {
    MapSeq(OutcomeOf, Slices(text))
  }

  /** `pairwise(b)` sliced out of `text`: the slices between consecutive
      bounds. */
  function Tiles(text: string, b: seq<int>): (r: seq<string>)
    requires |b| >= 1
    ensures |r| == |b| - 1
  {
    seq(|b| - 1, k requires 0 <= k < |b| - 1 => Slice(text, b[k], b[k + 1]))
  }

  /** Positions of `text`, each no smaller than the one before. */
  predicate Chained(text: string, b: seq<int>) {
    (forall k :: 0 <= k < |b| ==> 0 <= b[k] <= |text|) && Ascending(b)
  }

  /** Consecutive slices put back together give the text between the first
      and the last bound. */
  lemma {:induction false} TilesConcat(text: string, b: seq<int>)
    requires |b| >= 1 && Chained(text, b)
    ensures Concat(Tiles(text, b)) == text[b[0]..b[|b| - 1]]
    decreases |b|
  {
    if |b| > 1 {
      var t, rest := Tiles(text, b), b[1..];
      TilesConcat(text, rest);
      assert t[1..] == Tiles(text, rest);
      assert t[0] == text[b[0]..b[1]];
      SliceSplit(text, b[0], b[1], b[|b| - 1]);
    }
  }

  lemma SliceSplit(s: string, x: nat, m: nat, y: nat)
    requires x <= m <= y <= |s|
    ensures s[x..y] == s[x..m] + s[m..y]
  {
  }

  /** The openings of the reports never move backwards. */
  lemma BlockStartsAscending(text: string)
    ensures Ascending(BlockStarts(text))
    ensures forall k :: 0 <= k < |BlockStarts(text)| ==> -1 <= BlockStarts(text)[k] < |text|
  {
    var m := Markers(text);
    forall k, l | 0 <= k < l < |m| ensures BlockStarts(text)[k] <= BlockStarts(text)[l] {
      RFindMonotone(text, "--", m[k], m[l]);
    }
  }

  /** With the first opening found, the bounds `[*starts, len(text)]` are
      ascending positions of the text. */
  lemma BoundsInText(text: string)
    requires |Markers(text)| > 0 && BlockStarts(text)[0] >= 0
    ensures Chained(text, BlockStarts(text) + [|text|])
  {
    BlockStartsAscending(text);
    var starts := BlockStarts(text);
    var b := starts + [|text|];
    forall k | 0 <= k < |b| ensures 0 <= b[k] <= |text| {
      if k < |starts| { assert starts[0] <= starts[k]; }
    }
    forall k, l | 0 <= k < l < |b| ensures b[k] <= b[l] {
      if l < |starts| { assert starts[k] <= starts[l]; }
    }
  }

  /** When the first phrase has a "--" before it, the reports cover the
      rest of the text from that "--" on, without gaps or overlaps. */
  lemma SlicesTile(text: string)
    requires |Markers(text)| > 0 && BlockStarts(text)[0] >= 0
    ensures Concat(Slices(text)) == text[BlockStarts(text)[0]..]
  {
    var b := BlockStarts(text) + [|text|];
    BoundsInText(text);
    TilesConcat(text, b);
    assert Slices(text) == Tiles(text, b);
    assert b[0] == BlockStarts(text)[0] && b[|b| - 1] == |text|;
  }

  /** The verdict phrase at `i`, if one starts there. */
  function PhraseVerdict(text: string, i: int): Verdict {
    if OccursAt(text, "is true", i) then TRUE
    else if OccursAt(text, "is unknown", i) then UNKNOWN
    else FALSE
  }

  /** A transcript with a single verdict phrase, preceded by a "--", gives a
      single report, over the rest of the text from that "--", and the
      report's verdict is that phrase's. */
  lemma SingleReport(text: string)
    requires |Markers(text)| == 1 && BlockStarts(text)[0] >= 0
    ensures Slices(text) == [text[BlockStarts(text)[0]..]]
    ensures VerdictOf(Slices(text)[0]) == PhraseVerdict(text, Markers(text)[0])
  {
    var m, a := Markers(text)[0], BlockStarts(text)[0];
    var sl := text[a..];
    assert Slices(text)[0] == Slice(text, a, |text|) == sl;
    assert a + 2 <= m;
    OnlyMarker(text, a, m, "is true");
    PhraseInSlice(text, a, m, "is true");
    OnlyMarker(text, a, m, "is unknown");
    PhraseInSlice(text, a, m, "is unknown");
    PhrasesExclusive(text, m);
  }

  /** Within the slice from `a`, a phrase that occurs in the text at most
      at `m` occurs exactly when it occurs at `m`. */
  lemma PhraseInSlice(text: string, a: nat, m: nat, p: string)
    requires a <= m < |text|
    requires forall j :: a <= j && OccursAt(text, p, j) ==> j == m
    ensures Contains(text[a..], p) <==> OccursAt(text, p, m)
  {
    var sl := text[a..];
    if Contains(sl, p) {
      OccursShift(text, a, sl, p, Find(sl, p, 0));
    }
    if OccursAt(text, p, m) {
      assert sl[m - a..m - a + |p|] == text[m..m + |p|];
      ContainsAt(sl, p, m - a);
    }
  }

  /** A phrase found after the only marker's opening is at the marker. */
  lemma OnlyMarker(text: string, a: nat, m: nat, p: string)
    requires Markers(text) == [m] && a <= m
    requires p == "is true" || p == "is unknown"
    ensures forall j :: a <= j && OccursAt(text, p, j) ==> j == m
  {
    forall j | a <= j && OccursAt(text, p, j) ensures j == m {
      MarkersComplete(text, j);
    }
  }

  /** The `while x != -1` loop of `Outcome.parse` for one phrase: every
      position of `search`, left to right. */
  method FindAll(text: string, search: string) returns (found: seq<int>)
    ensures found == Occurrences(text, search, 0)
  {
    found := [];
    var x := Find(text, search, 0);
    OccurrencesFromFound(text, search, 0);
    while x != -1
      invariant x == -1 || OccursAt(text, search, x)
      invariant found + (if x == -1 then [] else Occurrences(text, search, x)) == Occurrences(text, search, 0)
      decreases if x == -1 then 0 else |text| + 1 - x
    {
      OccurrencesAt(text, search, x);
      OccurrencesFromFound(text, search, x + 1);
      found := found + [x];
      x := Find(text, search, x + 1);
    }
  }

  /** The first loop of `Outcome.parse`: the positions of each phrase in
      turn; as a multiset, exactly the verdict markers. */
  method CollectPlaces(text: string) returns (places: seq<int>)
    ensures places == AllOccurrences(text, PHRASES)
    ensures multiset(places) == multiset(Markers(text))
  {
    places := [];
    for n := 0 to |PHRASES|
      invariant places == AllOccurrences(text, PHRASES[..n])
    {
      assert PHRASES[..n + 1][..n] == PHRASES[..n];
      var found := FindAll(text, PHRASES[n]);
      places := places + found;
    }
    assert PHRASES[..|PHRASES|] == PHRASES;
    AllOccurrencesAreMarkers(text);
  }

  /** `Outcome.parse`: collects the positions of every verdict phrase, one
      phrase after another, sorts them, opens each report at the "--"
      before its phrase and reads the slices between consecutive openings
      (the last one running to the end of the text). */
  method ParseOutcomes(text: string) returns (y: Yielded<Outcome>)
    ensures y == OutcomesOf(text)
  {
    var places := CollectPlaces(text);
    var ordered := SortAscending(places);
    AscendingUnique(ordered, Markers(text));
    var starts := seq(|ordered|, k requires 0 <= k < |ordered| => RFind(text, "--", ordered[k]));
    assert starts == BlockStarts(text);
    y := ReadReports(text, starts + [|text|]);
  }

  /** The loop of `Outcome.parse` that reads the slices between the
      report openings `bounds`, stopping at the first that fails. */
  method ReadReports(text: string, bounds: seq<int>) returns (y: Yielded<Outcome>)
    requires bounds == BlockStarts(text) + [|text|]
    ensures y == OutcomesOf(text)
  {
    ghost var results := Reports(text);
    var items := [];
    for k := 0 to |bounds| - 1
      invariant CollectFrom([], results) == CollectFrom(items, results[k..])
    {
      var slice := Slice(text, bounds[k], bounds[k + 1]);
      var o := OutcomeOf(slice);
      ReportAt(text, bounds, k);
      CollectStep(items, results, k);
      if o.Err? {
        return Yielded(items, Some(o.error));
      }
      items := items + [o.value];
    }
    return Yielded(items, None);
  }

  /** One step of the generator: the `k`-th result either stops it or is
      yielded before the rest. */
  lemma CollectStep<T>(done: seq<T>, results: seq<Result<T, Builtin>>, k: nat)
    requires k < |results|
    ensures CollectFrom(done, results[k..]) ==
      if results[k].Err? then Yielded(done, Some(results[k].error))
      else CollectFrom(done + [results[k].value], results[k + 1..])
  {
    assert results[k..][0] == results[k] && results[k..][1..] == results[k + 1..];
  }

  /** The `k`-th report is read from the slice between the `k`-th and the
      next opening. */
  lemma ReportAt(text: string, bounds: seq<int>, k: nat)
    requires bounds == BlockStarts(text) + [|text|] && k < |bounds| - 1
    ensures Reports(text)[k] == OutcomeOf(Slice(text, bounds[k], bounds[k + 1]))
  {
    assert Slice(text, bounds[k], bounds[k + 1]) == Slices(text)[k];
    MapSeqAt(OutcomeOf, Slices(text), k);
  }

  /** `Outcome.message` */
  function Message(o: Outcome): string {
    "VERIFICATION " + VerdictValue(o.verdict) + " for " + o.specification + " (" + o.logic + ")"
  }

  /** The part of a verdict line that names the verdict. */
  function VerdictPrefix(v: Verdict): string {
    "VERIFICATION " + VerdictValue(v) + " for "
  }

  /** Reads the verdict back from a verdict line. */
  function VerdictOfMessage(m: string): Option<Verdict> {
    if StartsWith(m, VerdictPrefix(TRUE)) then Some(TRUE)
    else if StartsWith(m, VerdictPrefix(FALSE)) then Some(FALSE)
    else if StartsWith(m, VerdictPrefix(UNKNOWN)) then Some(UNKNOWN)
    else None
  }

  /** The verdict prefixes differ at their fourteenth character. */
  lemma VerdictPrefixesDiffer(m: string, v: Verdict, u: Verdict)
    requires StartsWith(m, VerdictPrefix(v)) && u != v
    ensures !StartsWith(m, VerdictPrefix(u))
  {
    var p, q := VerdictPrefix(v), VerdictPrefix(u);
    assert p[13] == VerdictValue(v)[0] && q[13] == VerdictValue(u)[0];
    StartsWithAt(m, p, 13);
    StartsWithAt(m, q, 13);
  }

  /** The verdict line determines the verdict. */
  lemma MessageVerdict(o: Outcome)
    ensures VerdictOfMessage(Message(o)) == Some(o.verdict)
  {
    var m, w := Message(o), VerdictPrefix(o.verdict);
    assert m == w + (o.specification + " (" + o.logic + ")");
    assert m[..|w|] == w;
    if o.verdict != TRUE { VerdictPrefixesDiffer(m, o.verdict, TRUE); }
    if o.verdict != FALSE { VerdictPrefixesDiffer(m, o.verdict, FALSE); }
  }
}

/** The text handling both drivers share: picking the error lines out of
    nuXmv's output, formatting the options of the checking commands (and
    reading them back), and cutting the candidate states of a simulation
    step out of nuXmv's listing. */
module Commands {
  import opened Base
  import opened PyStr
  import opened Engine

  // ------------------------------------------------------------ error lines

  /** The output that both drivers' factories raise `NoBooleanModel` for. */
  const NO_BOOLEAN_MODEL := "The boolean model must be built before."

  /** `any(err in line for err in errs)` */
  function Flagged(errs: seq<string>, line: string): (b: bool)
    ensures b <==> exists k :: 0 <= k < |errs| && Contains(line, errs[k])
  {
    if errs == [] then false
    else if Contains(line, errs[0]) then true
    else
      var b := Flagged(errs[1..], line);
      assert forall k :: 1 <= k < |errs| ==> errs[k] == errs[1..][k - 1];
      b
  }

  /** The lines with some fragment of `errs`, in their original order. */
  function ErrLines(errs: seq<string>, lines: seq<string>): (r: seq<string>)
    ensures |r| <= |lines|
    ensures forall k :: 0 <= k < |r| ==> Flagged(errs, r[k])
  {
    if lines == [] then []
    else
      var rest := ErrLines(errs, lines[..|lines| - 1]);
      var last := lines[|lines| - 1];
      if Flagged(errs, last) then rest + [last] else rest
  }

  /** Nothing is kept exactly when no line is flagged. */
  lemma {:induction false} ErrLinesNone(errs: seq<string>, lines: seq<string>)
    ensures ErrLines(errs, lines) == [] <==> forall k :: 0 <= k < |lines| ==> !Flagged(errs, lines[k])
    decreases |lines|
  {
    if lines != [] {
      var init := lines[..|lines| - 1];
      ErrLinesNone(errs, init);
      assert forall k :: 0 <= k < |lines| - 1 ==> lines[k] == init[k];
    }
  }

  /** One step of the filter: a line put at the end is kept exactly when
      it is flagged. */
  lemma ErrLinesSnoc(errs: seq<string>, init: seq<string>, last: string)
    ensures ErrLines(errs, init + [last]) == ErrLines(errs, init) + (if Flagged(errs, last) then [last] else [])
  {
    assert (init + [last])[..|init|] == init;
  }

  /** The filter keeps the order: the lines of a concatenation are the
      lines of each part, one after the other. */
  lemma {:induction false} ErrLinesAppend(errs: seq<string>, a: seq<string>, b: seq<string>)
    ensures ErrLines(errs, a + b) == ErrLines(errs, a) + ErrLines(errs, b)
    decreases |b|
  {
    if b == [] {
      assert a + b == a;
    } else {
      var b', last := b[..|b| - 1], b[|b| - 1];
      ErrLinesAppend(errs, a, b');
      ErrLinesAppendStep(errs, a, b', last);
      assert b == b' + [last];
    }
  }

  /** The step of `ErrLinesAppend`: what holds for `b` holds with one more
      line after it. */
  lemma ErrLinesAppendStep(errs: seq<string>, a: seq<string>, b: seq<string>, last: string)
    requires ErrLines(errs, a + b) == ErrLines(errs, a) + ErrLines(errs, b)
    ensures ErrLines(errs, a + (b + [last])) == ErrLines(errs, a) + ErrLines(errs, b + [last])
  {
    AppendAssoc(a, b, [last]);
    ErrLinesSnoc(errs, a + b, last);
    ErrLinesSnoc(errs, b, last);
    AppendAssoc(ErrLines(errs, a), ErrLines(errs, b), if Flagged(errs, last) then [last] else []);
  }

  /** The common tail of both factories: a plain `PyXmvError` carrying the
      flagged lines joined by newlines, or nothing when no line is
      flagged. */
  function FaultOf(errs: seq<string>, msg: string): (r: Option<Error>)
    requires forall k :: 0 <= k < |errs| ==> errs[k] != []
    ensures r.Some? <==> exists k :: 0 <= k < |SplitLines(msg)| && Flagged(errs, SplitLines(msg)[k])
    ensures r.Some? ==> r.value.Fault? && SplitLines(r.value.msg) == ErrLines(errs, SplitLines(msg))
  {
    var lines := ErrLines(errs, SplitLines(msg));
    ErrLinesNone(errs, SplitLines(msg));
    if lines == [] then None
    else
      FlaggedLinesJoin(errs, lines, SplitLines(msg));
      Some(Fault(Join(lines, "\n")))
  }

  /** The flagged lines, joined, split back into the same lines. */
  lemma FlaggedLinesJoin(errs: seq<string>, lines: seq<string>, all: seq<string>)
    requires forall k :: 0 <= k < |errs| ==> errs[k] != []
    requires forall k :: 0 <= k < |all| ==> NoLineBreak(all[k])
    requires lines == ErrLines(errs, all) && lines != []
    ensures SplitLines(Join(lines, "\n")) == lines
  {
    forall k | 0 <= k < |lines| ensures NoLineBreak(lines[k]) {
      ErrLinesFrom(errs, all, k);
    }
    var last := lines[|lines| - 1];
    var e :| 0 <= e < |errs| && Contains(last, errs[e]);
    assert OccursAt(last, errs[e], Find(last, errs[e], 0));
    SplitLinesJoin(lines);
  }

  /** Every flagged line is one of the lines it was picked from. */
  lemma {:induction false} ErrLinesFrom(errs: seq<string>, all: seq<string>, k: nat)
    requires k < |ErrLines(errs, all)|
    ensures ErrLines(errs, all)[k] in all
    decreases |all|
  {
    var init := all[..|all| - 1];
    var rest := ErrLines(errs, init);
    if k < |rest| {
      ErrLinesFrom(errs, init, k);
      assert ErrLines(errs, all)[k] == rest[k];
    }
  }

  // -------------------------------------------------------- command options

  /** A Python value used as a condition: `None` and zero are false. */
  function TruthyBound(bound: Option<int>): (r: Option<int>)
    ensures r.Some? <==> bound.Some? && bound.value != 0
    ensures r.Some? ==> r == bound
  {
    if bound.Some? && bound.value != 0 then bound else None
  }

  /** A Python string used as a condition: `None` and "" are false. */
  function TruthySpec(spec: Option<string>): (r: Option<string>)
    ensures r.Some? <==> spec.Some? && spec.value != []
    ensures r.Some? ==> r == spec
  {
    if spec.Some? && spec.value != [] then spec else None
  }

  /** `f"-k {bound}"`, or nothing. */
  function BoundOption(bound: Option<int>): string {
    if bound.Some? then "-k " + IntToString(bound.value) else ""
  }

  /** `f"""{flag} "{spec}" """`, or nothing. */
  function SpecOption(flag: string, spec: Option<string>): string {
    if spec.Some? then flag + " \"" + spec.value + "\" " else ""
  }

  /** Reads back an integer written by `str(int)`. */
  function IntOf(token: string): Option<int> {
    if token != [] && token[0] == '-' then
      (if |token| > 1 && AllDigits(token[1..]) then Some(-(DigitsValue(token[1..]) as int)) else None)
    else if token != [] && AllDigits(token) then Some(DigitsValue(token))
    else None
  }

  lemma IntOfIntToString(i: int)
    ensures IntOf(IntToString(i)) == Some(i)
  {
    if i < 0 {
      NegativeRoundTrip(i);
    } else {
      var r := NatToString(i);
      NatToStringRoundTrip(i);
      assert AllDigits(r) && r != [];
      assert r[0] != '-' by { assert '0' <= r[0] <= '9'; }
    }
  }

  lemma NegativeRoundTrip(i: int)
    requires i < 0
    ensures IntOf(IntToString(i)) == Some(i)
  {
    NatToStringRoundTrip(-i);
    ReadNegative(NatToString(-i), -i);
  }

  /** A minus sign before the digits of `n` reads back as `-n`. */
  lemma ReadNegative(r: string, n: nat)
    requires r != [] && AllDigits(r) && DigitsValue(r) == n
    ensures IntOf("-" + r) == Some(-(n as int))
  {
    var t := "-" + r;
    assert t[0] == '-' && t[1..] == r;
  }

  /** Reads back the options `BoundOption(b) + " " + SpecOption(flag, s)`
      of a checking command: the bound after `-k`, and the property quoted
      after `flag`. */
  function ReadOptions(flag: string, s: string): (Option<int>, Option<string>) {
    if StartsWith(s, "-k ") then
      var j := WordEnd(s, 3);
      (IntOf(s[3..j]), ReadSpec(flag, s[Clamp(j + 1, |s|)..]))
    else (None, ReadSpec(flag, s[Clamp(1, |s|)..]))
  }

  /** Reads back `SpecOption(flag, spec)`. */
  function ReadSpec(flag: string, s: string): Option<string> {
    var n := |flag| + 2;
    if |s| >= n + 2 && s[..n] == flag + " \"" && s[|s| - 2..] == "\" " then Some(s[n..|s| - 2])
    else None
  }

  lemma ReadSpecOption(flag: string, spec: Option<string>)
    ensures ReadSpec(flag, SpecOption(flag, spec)) == spec
  {
    if spec.Some? {
      var s := SpecOption(flag, spec);
      var n := |flag| + 2;
      assert s[..n] == flag + " \"";
      assert s[|s| - 2..] == "\" ";
      assert s[n..|s| - 2] == spec.value;
    }
  }

  /** The options a checking command is built with read back as the bound
      and the property it was given. */
  lemma OptionsRoundTrip(flag: string, bound: Option<int>, spec: Option<string>)
    ensures ReadOptions(flag, BoundOption(bound) + " " + SpecOption(flag, spec)) == (bound, spec)
  {
    ReadSpecOption(flag, spec);
    if bound.Some? {
      BoundRoundTrip(flag, bound.value, SpecOption(flag, spec));
    } else {
      NoBoundRoundTrip(flag, SpecOption(flag, spec));
    }
  }

  /** A bound is read back, and the reading resumes after its space. */
  lemma BoundRoundTrip(flag: string, bound: int, tail: string)
    ensures ReadOptions(flag, "-k " + IntToString(bound) + " " + tail) == (Some(bound), ReadSpec(flag, tail))
  {
    var digits := IntToString(bound);
    var s := "-k " + digits + " " + tail;
    assert s[..3] == "-k ";
    assert s[3..3 + |digits|] == digits;
    WordEndAt(s, 3, digits);
    IntOfIntToString(bound);
    assert s[3 + |digits| + 1..] == tail;
  }

  /** Without a bound, the reading starts after the separating space. */
  lemma NoBoundRoundTrip(flag: string, tail: string)
    ensures ReadOptions(flag, " " + tail) == (None, ReadSpec(flag, tail))
  {
    var s := " " + tail;
    assert !StartsWith(s, "-k ") by { assert s[0] == ' '; }
    assert s[1..] == tail;
  }

  // -------------------------------------------------------- command strings

  /** `str(value)` for a value of the environment, where `None` prints as
      "None". */
  function Str(value: Option<string>): string {
    if value.None? then "None" else value.value
  }


  /** `check_ltlspec`'s command: the property after `-p`, if given. */
  function CheckLtlspecCmd(spec: Option<string>): (cmd: string)
    ensures |cmd| >= 14 && cmd[..14] == "check_ltlspec "
    ensures ReadSpec("-p", cmd[14..]) == TruthySpec(spec)
  {
    var cmd := "check_ltlspec " + SpecOption("-p", TruthySpec(spec));
    ReadSpecOption("-p", TruthySpec(spec));
    assert cmd[14..] == SpecOption("-p", TruthySpec(spec));
    cmd
  }

  /** `check_ltlspec_ic3`'s command: `-k` with a truthy bound, the
      property after `-p`, if given. */
  function CheckLtlspecIc3Cmd(bound: Option<int>, spec: Option<string>): (cmd: string)
    ensures |cmd| >= 18 && cmd[..18] == "check_ltlspec_ic3 "
    ensures ReadOptions("-p", cmd[18..]) == (TruthyBound(bound), TruthySpec(spec))
  {
    var opts := BoundOption(TruthyBound(bound)) + " " + SpecOption("-p", TruthySpec(spec));
    OptionsRoundTrip("-p", TruthyBound(bound), TruthySpec(spec));
    var cmd := "check_ltlspec_ic3 " + opts;
    assert cmd[18..] == opts;
    cmd
  }

  /** `check_property_as_invar_ic3`'s command: `-k` with a truthy bound,
      the property after `-L`, if given. */
  function CheckPropertyAsInvarIc3Cmd(bound: Option<int>, spec: Option<string>): (cmd: string)
    ensures |cmd| >= 28 && cmd[..28] == "check_property_as_invar_ic3 "
    ensures ReadOptions("-L", cmd[28..]) == (TruthyBound(bound), TruthySpec(spec))
  {
    var opts := BoundOption(TruthyBound(bound)) + " " + SpecOption("-L", TruthySpec(spec));
    OptionsRoundTrip("-L", TruthyBound(bound), TruthySpec(spec));
    var cmd := "check_property_as_invar_ic3 " + opts;
    assert cmd[28..] == opts;
    cmd
  }

  /** `msat_check_ltlspec_bmc`'s command: `-k` with the bound, whatever it
      is, and the property after `-p`, if given. */
  function MsatCheckLtlspecBmcCmd(bound: int, spec: Option<string>): (cmd: string)
    ensures |cmd| >= 23 && cmd[..23] == "msat_check_ltlspec_bmc "
    ensures ReadOptions("-p", cmd[23..]) == (Some(bound), TruthySpec(spec))
  {
    var opts := BoundOption(Some(bound)) + " " + SpecOption("-p", TruthySpec(spec));
    OptionsRoundTrip("-p", Some(bound), TruthySpec(spec));
    var cmd := "msat_check_ltlspec_bmc " + opts;
    assert cmd[23..] == opts;
    cmd
  }

  /** The command `init_simulation` picks the initial state with. */
  function PickStateCmd(c: Option<string>): string {
    "msat_pick_state -c \"" + Str(c) + "\" -v -i"
  }

  /** The command `get_successor_states` lists the successors with. */
  function SimulateCmd(c: string): string {
    "msat_simulate -i -a -k 1 -c " + c
  }

  /** The verdict line nuXmv prints after a satisfiable simulation step. */
  const SIM_SAT := "Simulation is SAT"

  // ------------------------------------------------------ candidate states

  /** `STATE_SEP`, the line nuXmv prints before each candidate state. */
  const STATE_SEP := "================= State ================="

  /** `output.split(STATE_SEP)[1:]`: the candidate states of a listing. */
  function Candidates(output: string): (r: seq<string>)
    ensures r == [] <==> !Contains(output, STATE_SEP)
    ensures forall k :: 0 <= k < |r| ==> !Contains(r[k], STATE_SEP)
  {
    SplitCount(output, STATE_SEP);
    var pieces := Split(output, STATE_SEP);
    assert forall k :: 0 <= k < |pieces| - 1 ==> pieces[1..][k] == pieces[k + 1];
    pieces[1..]
  }

  /** The 25 dashes of `re_state`. */
  const DASHES := "-------------------------"

  predicate IsDigit(c: char) {
    '0' <= c <= '9'
  }

  /** The end of the run of digits starting at `i`. */
  function DigitsEnd(s: string, i: nat): (r: nat)
    requires i <= |s|
    ensures i <= r <= |s| && (r < |s| ==> !IsDigit(s[r]))
    ensures forall k :: i <= k < r ==> IsDigit(s[k])
    decreases |s| - i
  {
    if i < |s| && IsDigit(s[i]) then DigitsEnd(s, i + 1) else i
  }

  /** Where a match of `re_state` (`[0-9]+\) -{25}`) starting at `i` ends,
      if one starts there. The digits are matched greedily, and no shorter
      run can be followed by the `)`, so there is at most one match. */
  function HeaderEnd(s: string, i: nat): (r: Option<nat>)
    requires i <= |s|
    ensures r.Some? ==> i < r.value <= |s|
  {
    if i < |s| && IsDigit(s[i]) then
      var j := DigitsEnd(s, i);
      if OccursAt(s, ") " + DASHES, j) then Some(j + 27) else None
    else None
  }

  /** `re.sub(re_state, "", s, 1)` scanning from `i`: the leftmost match
      removed, or `s` unchanged when there is none. */
  function DropHeaderFrom(s: string, i: nat): (r: string)
    requires i <= |s|
    ensures |r| <= |s|
    decreases |s| - i
  {
    if i == |s| then s
    else match HeaderEnd(s, i)
      case Some(e) => s[..i] + s[e..]
      case None => DropHeaderFrom(s, i + 1)
  }

  /** `re.sub(re_state, "", s, 1)` */
  function DropHeader(s: string): string {
    DropHeaderFrom(s, 0)
  }

  /** A listing without any header is left alone. */
  lemma {:induction false} DropHeaderNone(s: string, i: nat)
    requires i <= |s|
    requires forall k :: i <= k <= |s| ==> HeaderEnd(s, k).None?
    ensures DropHeaderFrom(s, i) == s
    decreases |s| - i
  {
    if i < |s| {
      DropHeaderNone(s, i + 1);
    }
  }

  /** The header nuXmv prints for the `n`-th state. */
  function StateHeader(n: nat): string {
    NatToString(n) + ") " + DASHES
  }

  /** A state listed under its header comes back without it. */
  lemma DropStateHeader(n: nat, rest: string)
    ensures DropHeader(StateHeader(n) + rest) == rest
  {
    var digits := NatToString(n);
    var s := StateHeader(n) + rest;
    assert s[..|digits|] == digits;
    assert s[|digits|] == ')';
    DigitsRun(s, 0, |digits|);
    assert s[|digits|..|digits| + 27] == ") " + DASHES;
    assert s[|digits| + 27..] == rest;
  }

  /** A run of digits followed by a non-digit ends there. */
  lemma DigitsRun(s: string, i: nat, j: nat)
    requires i <= j < |s| && (forall k :: i <= k < j ==> IsDigit(s[k])) && !IsDigit(s[j])
    ensures DigitsEnd(s, i) == j
    decreases j - i
  {
    if i < j {
      DigitsRun(s, i + 1, j);
    }
  }

  /** `chosen` is one of the candidates of the listing `output`, without
      its header and stripped. */
  predicate ChosenFrom(output: string, chosen: string) {
    exists i :: 0 <= i < |Candidates(output)| && chosen == Strip(DropHeader(Candidates(output)[i]))
  }

  /** A successful pick is one of the listed candidates. */
  lemma ChosenListed(output: string, choice: int)
    requires Chosen(Candidates(output), choice).Ok?
    ensures ChosenFrom(output, Chosen(Candidates(output), choice).value)
  {
    var states := Candidates(output);
    var i := if choice >= 0 then choice else |states| + choice;
    assert Chosen(states, choice).value == Strip(DropHeader(states[i]));
  }

  /** `re.sub(re_state, "", states[choice], 1).strip()`, or the
      `IndexError` of an index past the end. */
  function Chosen(states: seq<string>, choice: int): (r: Result<string, Error>)
    ensures r.Ok? <==> -|states| <= choice < |states|
    ensures r.Ok? ==> Trimmed(r.value)
  {
    if 0 <= choice < |states| then Ok(Strip(DropHeader(states[choice])))
    else if -|states| <= choice < 0 then Ok(Strip(DropHeader(states[|states| + choice])))
    else Err(Raised(IndexError))
  }

  /** The index `str(choice)` a driver sends has no spaces to strip. */
  lemma IntToStringTrimmed(i: int)
    ensures Strip(IntToString(i)) == IntToString(i)
  {
    var r := IntToString(i);
    assert !IsSpace(r[0]) && !IsSpace(r[|r| - 1]);
    StripTrimmed(r);
  }

  // ------------------------------------------------------------ simulation

  /** What a heuristic's `choose_from` answered: an index into the
      candidates, or the exception it raised. */
  type Pick = Result<int, Builtin>

  /** `re.sub(re_state, "", states[choice], 1).strip()` for the answer
      `pick`; an exception of the heuristic propagates. */
  function ChosenBy(states: seq<string>, pick: Pick): Result<string, Error> {
    if pick.Err? then Err(Raised(pick.error)) else Chosen(states, pick.value)
  }

  /** One step of a driver's simulation loop, from the driver's state `S`
      and the heuristic's answer: the chosen state and whether nuXmv
      reported the simulation satisfiable, or the error, and the driver's
      state after the step. */
  type Stepper<!S> = (S, Pick) -> (Result<(string, bool), Error>, S)

  /** The loop of `run_simulation` and `simulate` when the heuristic
      answers `picks` in turn: one `step` per answer, stopping at the first
      error, right after the first step that is not satisfiable, or after
      the last answer; the chosen states and the last step's flag. */
  function Simulation<S>(step: Stepper<S>, s: S, picks: seq<Pick>): (Result<(seq<string>, bool), Error>, S)
    requires picks != []
    decreases |picks|
  {
    var (first, s1) := step(s, picks[0]);
    if first.Err? then (Err(first.error), s1)
    else if |picks| == 1 || !first.value.1 then (Ok(([first.value.0], first.value.1)), s1)
    else
      var (rest, s2) := Simulation(step, s1, picks[1..]);
      (if rest.Err? then rest else Ok(([first.value.0] + rest.value.0, rest.value.1)), s2)
  }

  /** Appending a stripped state to the stripped states chosen so far. */
  lemma AllTrimmedAppend(xs: seq<string>, x: string)
    requires forall j :: 0 <= j < |xs| ==> Trimmed(xs[j])
    requires Trimmed(x)
    ensures forall j :: 0 <= j < |xs + [x]| ==> Trimmed((xs + [x])[j])
  {
  }

  /** A run whose steps were all satisfiable goes on with one more step:
      the loop body of both drivers. */
  lemma {:induction false} SimulationSnoc<S>(step: Stepper<S>, s: S, picks: seq<Pick>, p: Pick)
    requires picks != []
    requires var r := Simulation(step, s, picks).0; r.Ok? && r.value.1
    ensures var (r, s1) := Simulation(step, s, picks);
      var (last, s2) := step(s1, p);
      Simulation(step, s, picks + [p])
        == (if last.Err? then Err(last.error) else Ok((r.value.0 + [last.value.0], last.value.1)), s2)
    decreases |picks|
  {
    var (first, s1) := step(s, picks[0]);
    assert (picks + [p])[0] == picks[0];
    if |picks| == 1 {
      assert (picks + [p])[1..] == [p];
    } else {
      assert (picks + [p])[1..] == picks[1..] + [p];
      var rest := Simulation(step, s1, picks[1..]).0;
      assert first.Ok? && first.value.1 && rest.Ok? && rest.value.1;
      SimulationSnoc(step, s1, picks[1..], p);
      var (last, _) := step(Simulation(step, s1, picks[1..]).1, p);
      if last.Ok? {
        AppendAssoc([first.value.0], rest.value.0, [last.value.0]);
      }
    }
  }

  /** A run that succeeds took between one step and one per answer, and
      stopped before the answers ran out only after a step that was not
      satisfiable. */
  lemma {:induction false} SimulationShape<S>(step: Stepper<S>, s: S, picks: seq<Pick>)
    requires picks != []
    ensures var r := Simulation(step, s, picks).0;
      r.Ok? ==> 1 <= |r.value.0| <= |picks| && (|r.value.0| < |picks| ==> !r.value.1)
    decreases |picks|
  {
    var (first, s1) := step(s, picks[0]);
    if first.Ok? && |picks| > 1 && first.value.1 {
      SimulationShape(step, s1, picks[1..]);
    }
  }

  /** Every step before the last was satisfiable: the first `k` steps of a
      run that took more than `k` are a run of their own that chose the
      same first `k` states and ended satisfiable. */
  lemma {:induction false} SimulationPrefix<S>(step: Stepper<S>, s: S, picks: seq<Pick>, k: nat)
    requires 1 <= k <= |picks|
    requires var r := Simulation(step, s, picks).0; r.Ok? && k < |r.value.0|
    ensures var r := Simulation(step, s, picks).0;
      Simulation(step, s, picks[..k]).0 == Ok((r.value.0[..k], true))
    decreases k
  {
    var (first, s1) := step(s, picks[0]);
    var r := Simulation(step, s, picks).0;
    var rest := Simulation(step, s1, picks[1..]).0;
    assert |picks| > 1 && first.Ok? && first.value.1;
    assert r.value.0 == [first.value.0] + rest.value.0;
    assert picks[..k][0] == picks[0];
    if k == 1 {
      assert r.value.0[..1] == [first.value.0];
    } else {
      assert picks[..k][1..] == picks[1..][..k - 1];
      SimulationPrefix(step, s1, picks[1..], k - 1);
      assert r.value.0[..k] == [first.value.0] + rest.value.0[..k - 1];
    }
  }
}

/** The older driver, `NuXmvInt`: the same conversation as `PyXmv` without
    the warm-up flags and the environment, with the fixed `msat_setup`
    sequence instead, and with an error list whose missing comma fuses two
    fragments into one. */
module NuXmvIntDriver {
  import opened Base
  import opened PyStr
  import opened Engine
  import opened Commands
  import opened Heuristics
  import opened Wrapper

  // ------------------------------------------------------------- factory

  /** `PyXmvError.errs` as Python reads it: the adjacent literals
      "not well typed" and "TYPE ERROR" have no comma between them, so they
      are concatenated into one fragment and the tuple has six entries. */
  const ERRS: seq<string> := [
    "illegal operand types",
    "Nested next operator",
    "No trace: constraint and initial state are inconsistent",
    "not well typedTYPE ERROR",
    "Type System Violation detected",
    "unexpected expression encountered during parsing"]

  /** `PyXmvError.factory(msg)` as written: a missing boolean model raises
      `NoBooleanModel` with the whole stripped output; otherwise the error
      carries exactly the lines with a fragment of `ERRS`, in order. There
      is no missing-input-file case. */
  function Factory(msg: string): (r: Option<Error>)
    ensures Contains(msg, NO_BOOLEAN_MODEL) ==> r == Some(NoBooleanModel(Strip(msg)))
    ensures !Contains(msg, NO_BOOLEAN_MODEL)
      ==> (r.Some? <==> exists k :: 0 <= k < |SplitLines(msg)| && Flagged(ERRS, SplitLines(msg)[k]))
    ensures !Contains(msg, NO_BOOLEAN_MODEL) && r.Some?
      ==> r.value.Fault? && SplitLines(r.value.msg) == ErrLines(ERRS, SplitLines(msg))
  {
    if Contains(msg, NO_BOOLEAN_MODEL) then Some(NoBooleanModel(Strip(msg)))
    else FaultOf(ERRS, msg)
  }

  /** The list with the comma put back: "not well typed" and "TYPE ERROR"
      as two fragments, as the newer driver lists them. */
  const CORRECTED_ERRS: seq<string> := [
    "illegal operand types",
    "Nested next operator",
    "No trace: constraint and initial state are inconsistent",
    "not well typed",
    "TYPE ERROR",
    "Type System Violation detected",
    "unexpected expression encountered during parsing"]

  /** `factory` over the corrected list. */
  function CorrectedFactory(msg: string): (r: Option<Error>)
    ensures Contains(msg, NO_BOOLEAN_MODEL) ==> r == Some(NoBooleanModel(Strip(msg)))
    ensures !Contains(msg, NO_BOOLEAN_MODEL)
      ==> (r.Some? <==> exists k :: 0 <= k < |SplitLines(msg)| && Flagged(CORRECTED_ERRS, SplitLines(msg)[k]))
    ensures !Contains(msg, NO_BOOLEAN_MODEL) && r.Some?
      ==> r.value.Fault? && SplitLines(r.value.msg) == ErrLines(CORRECTED_ERRS, SplitLines(msg))
  {
    if Contains(msg, NO_BOOLEAN_MODEL) then Some(NoBooleanModel(Strip(msg)))
    else FaultOf(CORRECTED_ERRS, msg)
  }

  /** Text longer than `s` does not occur in it. */
  lemma TooLong(s: string, p: string)
    requires |p| > |s|
    ensures !Contains(s, p)
  {
  }

  /** A single line without a line break splits into itself. */
  lemma OneLine(s: string)
    requires s != [] && NoLineBreak(s)
    ensures SplitLines(s) == [s]
  {
    LineEndNone(s, 0);
  }

  /** A line that only reports a type error passes the factory as
      written, while the corrected list flags it. */
  lemma FusedFragmentMissesTypeError()
    ensures Factory("TYPE ERROR") == None
    ensures CorrectedFactory("TYPE ERROR").Some?
  {
    MissedByFused("TYPE ERROR");
    CorrectedCatchesTypeError();
  }

  /** The corrected list flags a line that only reports a type error. */
  lemma CorrectedCatchesTypeError()
    ensures CorrectedFactory("TYPE ERROR").Some?
  {
    var line := "TYPE ERROR";
    assert CORRECTED_ERRS[4] == line;
    CaughtByCorrected(line, 4);
  }

  /** A line that only reports an expression not well typed passes the
      factory as written. */
  lemma FusedFragmentMissesNotWellTyped()
    ensures Factory("not well typed") == None
  {
    MissedByFused("not well typed");
  }

  /** The corrected list flags a line that only reports an expression not
      well typed. */
  lemma CorrectedCatchesNotWellTyped()
    ensures CorrectedFactory("not well typed").Some?
  {
    var line := "not well typed";
    assert CORRECTED_ERRS[3] == line;
    CaughtByCorrected(line, 3);
  }

  /** A short one-line output that `ERRS` cannot flag. */
  lemma MissedByFused(line: string)
    requires line == "TYPE ERROR" || line == "not well typed"
    ensures Factory(line) == None
  {
    assert NoLineBreak(line);
    OneLine(line);
    TooLong(line, NO_BOOLEAN_MODEL);
    forall k | 0 <= k < |ERRS| ensures !Contains(line, ERRS[k]) {
      TooLong(line, ERRS[k]);
    }
  }

  /** A one-line output that is one of the corrected fragments. */
  lemma CaughtByCorrected(line: string, k: nat)
    requires k < |CORRECTED_ERRS| && line == CORRECTED_ERRS[k] && |line| < |NO_BOOLEAN_MODEL|
    requires NoLineBreak(line)
    ensures CorrectedFactory(line).Some?
  {
    OneLine(line);
    TooLong(line, NO_BOOLEAN_MODEL);
    assert OccursAt(line, CORRECTED_ERRS[k], 0);
    ContainsAt(line, CORRECTED_ERRS[k], 0);
    assert Flagged(CORRECTED_ERRS, SplitLines(line)[0]);
  }

  /** Where `a + b` occurs, `a` and `b` occur. */
  lemma ContainsParts(line: string, a: string, b: string)
    requires Contains(line, a + b)
    ensures Contains(line, a) && Contains(line, b)
  {
    var i := Find(line, a + b, 0);
    var ab := line[i..i + |a + b|];
    assert ab == a + b;
    assert line[i..i + |a|] == ab[..|a|] == a;
    assert line[i + |a|..i + |a| + |b|] == ab[|a|..] == b;
    ContainsAt(line, a, i);
    ContainsAt(line, b, i + |a|);
  }

  /** Every line the fused list flags, the corrected list flags too. */
  lemma CorrectedFlagsMore(line: string)
    ensures Flagged(ERRS, line) ==> Flagged(CORRECTED_ERRS, line)
  {
    if Flagged(ERRS, line) {
      var k :| 0 <= k < |ERRS| && Contains(line, ERRS[k]);
      if k < 3 {
        assert CORRECTED_ERRS[k] == ERRS[k];
      } else if k == 3 {
        assert ERRS[3] == "not well typed" + "TYPE ERROR";
        ContainsParts(line, "not well typed", "TYPE ERROR");
        assert CORRECTED_ERRS[3] == "not well typed";
      } else {
        assert CORRECTED_ERRS[k + 1] == ERRS[k];
      }
    }
  }

  /** Every output the factory as written rejects, the corrected one
      rejects too. */
  lemma CorrectedFactoryCovers(msg: string)
    ensures Factory(msg).Some? ==> CorrectedFactory(msg).Some?
  {
    if Factory(msg).Some? && !Contains(msg, NO_BOOLEAN_MODEL) {
      var lines := SplitLines(msg);
      var k :| 0 <= k < |lines| && Flagged(ERRS, lines[k]);
      CorrectedFlagsMore(lines[k]);
    }
  }

  // ------------------------------------------------------------ msat_setup

  /** The commands `msat_setup(fname, shown_states)` sends, in order. */
  function SetupCmds(fname: string, shownStates: int): seq<string> {
    ["reset", "set shown_states " + IntToString(shownStates), "set input_file " + fname, "go_msat"]
  }

  /** `msat_setup`'s loop on the history: each command is sent, the prompt
      awaited and the output checked, and the first error ends it. */
  function SetupRun(answer: Oracle, check: Check, log: seq<Event>, cmds: seq<string>)
    : (r: (Option<Error>, seq<Event>))
    ensures |log| <= |r.1| && r.1[..|log|] == log
    decreases |cmds|
  {
    if cmds == [] then (None, log)
    else
      var (r, l) := Attempt(answer, check, log, cmds[0], None);
      if r.Err? then (Some(r.error), l) else SetupRun(answer, check, l, cmds[1..])
  }

  /** The sequence stops at the first error: the lines sent are the first
      commands in order; all of them when nothing failed, and otherwise
      up to the failing one, every earlier one having gone through. */
  lemma {:induction false} SetupStopsAtFirstError(answer: Oracle, check: Check, log: seq<Event>, cmds: seq<string>)
    ensures var (e, l) := SetupRun(answer, check, log, cmds);
      var sent := SentLines(l[|log|..]);
      |log| <= |l| && |sent| <= |cmds| && sent == cmds[..|sent|]
      && (e.None? ==> sent == cmds)
      && (e.Some? ==> |sent| > 0 && SetupRun(answer, check, log, cmds[..|sent| - 1]).0.None?)
    decreases |cmds|
  {
    if cmds != [] {
      var (r1, l1) := Attempt(answer, check, log, cmds[0], None);
      AttemptSends(answer, check, log, cmds[0], None);
      if r1.Ok? {
        var rest := cmds[1..];
        SetupStopsAtFirstError(answer, check, l1, rest);
        var (e, l) := SetupRun(answer, check, l1, rest);
        var sent' := SentLines(l[|l1|..]);
        assert l[|log|..] == l1[|log|..] + l[|l1|..];
        SentLinesAppend(l1[|log|..], l[|l1|..]);
        assert cmds[..|sent'| + 1] == [cmds[0]] + rest[..|sent'|];
        if e.Some? {
          var pre := cmds[..|sent'|];
          assert pre[0] == cmds[0] && pre[1..] == rest[..|sent'| - 1];
        }
      } else {
        assert cmds[..1] == [cmds[0]];
      }
    }
  }

  // ------------------------------------------------------------ simulation

  /** `init(h, c, timeout)` on the history when the heuristic answers
      `pick`: the `msat_pick_state` command as given, the guarded and
      checked wait for its listing, the chosen candidate, then `str(choice)`
      sent and its answer awaited and checked, with no retry; the chosen
      state, or the first error. */
  function InitRun(answer: Oracle, check: Check, log: seq<Event>, c: Option<string>, timeout: Option<int>, pick: Pick)
    : (Result<string, Error>, seq<Event>)
  {
    var (o, l) := Await(answer, log + [Sent(PickStateCmd(c))], PickState, timeout, true);
    var listing := Checked(check, o);
    if listing.Err? then (Err(listing.error), l)
    else
      var chosen := ChosenBy(Candidates(listing.value), pick);
      if chosen.Err? then (chosen, l)
      else
        var (ack, l2) := Attempt(answer, check, l, IntToString(pick.value), timeout);
        (if ack.Err? then Err(ack.error) else chosen, l2)
  }

  /** A step of `simulate(steps, c, h)` when the heuristic answers `pick`:
      `msat_simulate` sent with a bare `sendline`, the unguarded and
      unchecked wait for its listing (with pexpect's default timeout), the
      chosen candidate, then `str(choice)` sent and the next prompt awaited
      with no timeout and nothing checked; the chosen state and whether the
      text before that prompt reports the simulation satisfiable, or the
      first error. */
  function SimStep(answer: Oracle, log: seq<Event>, c: string, pick: Pick)
    : (Result<(string, bool), Error>, seq<Event>)
  {
    var (o, l) := Await(answer, log + [Sent(SimulateCmd(c))], PickState, Some(SPAWN_TIMEOUT), false);
    if o.Err? then (Err(o.error), l)
    else
      var chosen := ChosenBy(Candidates(o.value), pick);
      if chosen.Err? then (Err(chosen.error), l)
      else
        var (ack, l2) := Await(answer, l + [Sent(IntToString(pick.value))], Prompt, None, true);
        (if ack.Err? then Err(ack.error) else Ok((chosen.value, Contains(ack.value, SIM_SAT))), l2)
  }

  /** The steps of `simulate(steps, c, h)`. */
  function SimSteps(answer: Oracle, c: string): Stepper<seq<Event>> {
    (l: seq<Event>, p: Pick) => SimStep(answer, l, c, p)
  }

  /** `init` tells nuXmv the index of the state it returns: a state comes
      back only when the listing arrived and passed the factory and nuXmv
      accepted the index, which is the next line sent after the listing
      and names that state among the listed candidates. */
  lemma InitTells(answer: Oracle, check: Check, log: seq<Event>, c: Option<string>, timeout: Option<int>, pick: Pick)
    ensures var (o, l) := Await(answer, log + [Sent(PickStateCmd(c))], PickState, timeout, true);
      var (r, l2) := InitRun(answer, check, log, c, timeout, pick);
      r.Ok? ==>
        l == log + [Sent(PickStateCmd(c))] && Checked(check, o).Ok?
        && pick.Ok? && Chosen(Candidates(o.value), pick.value) == r
        && ChosenFrom(o.value, r.value)
        && IntOf(IntToString(pick.value)) == Some(pick.value)
        && l2 == l + [Sent(IntToString(pick.value))]
        && Attempt(answer, check, l, IntToString(pick.value), timeout).0.Ok?
  {
    var (o, l) := Await(answer, log + [Sent(PickStateCmd(c))], PickState, timeout, true);
    var (r, l2) := InitRun(answer, check, log, c, timeout, pick);
    if r.Ok? {
      ChosenListed(o.value, pick.value);
      IntOfIntToString(pick.value);
    }
  }

  /** A step of `simulate` tells nuXmv the index of the state it returns,
      right after the listing, and reports the simulation satisfiable
      exactly when the text nuXmv prints before the next prompt says so. */
  lemma SimStepTells(answer: Oracle, log: seq<Event>, c: string, pick: Pick)
    ensures var (o, l) := Await(answer, log + [Sent(SimulateCmd(c))], PickState, Some(SPAWN_TIMEOUT), false);
      var (r, l2) := SimStep(answer, log, c, pick);
      r.Ok? ==>
        l == log + [Sent(SimulateCmd(c))] && o.Ok?
        && pick.Ok? && Chosen(Candidates(o.value), pick.value) == Ok(r.value.0)
        && ChosenFrom(o.value, r.value.0)
        && IntOf(IntToString(pick.value)) == Some(pick.value)
        && l2 == l + [Sent(IntToString(pick.value))]
        && (r.value.1 <==> Contains(answer(l2, Prompt, None).value, SIM_SAT))
  {
    var (o, l) := Await(answer, log + [Sent(SimulateCmd(c))], PickState, Some(SPAWN_TIMEOUT), false);
    var (r, l2) := SimStep(answer, log, c, pick);
    if r.Ok? {
      ChosenListed(o.value, pick.value);
      IntOfIntToString(pick.value);
    }
  }

  // ------------------------------------------------------------- the class

  /** A `NuXmvInt` driver: the nuXmv process and the driver's classifier,
      `Factory`; the contracts below hold for any classifier. */
  class NuXmvInt {
    const engine: Process
    const check: Check

    constructor Attach(engine: Process)
      ensures this.engine == engine && check == Factory
    {
      this.engine := engine;
      check := Factory;
    }

    /** `NuXmvInt()`: fails when `nuxmv` is not on the `PATH`, otherwise
        spawns it and waits for the first prompt. */
    static method Open(onPath: bool, answer: Oracle) returns (r: Result<NuXmvInt, Error>)
      ensures !onPath ==> r == Err(Raised(FileNotFoundError))
      ensures onPath ==> (r.Ok? <==> answer([], Prompt, None).Some?)
      ensures onPath && r.Err? ==> r.error == Timeout
      ensures r.Ok? ==> fresh(r.value) && fresh(r.value.engine) && r.value.check == Factory
      ensures r.Ok? ==> r.value.engine.answer == answer && r.value.engine.log == []
    {
      if !onPath {
        return Err(Raised(FileNotFoundError));
      }
      var engine := new Process.Spawn(answer);
      var ready := engine.Expect(Prompt, None, true);
      if ready.Err? {
        return Err(ready.error);
      }
      var d := new NuXmvInt.Attach(engine);
      r := Ok(d);
    }

    /** `send_and_expect(cmd)`: unlike the newer driver's, it sends the
        command exactly as given. */
    method SendAndExpect(cmd: string)
      modifies engine
      ensures engine.log == old(engine.log) + [Sent(cmd)]
    {
      engine.SendLine(cmd);
    }

    /** `get_output(timeout, prompts)`: the wait, then the factory. */
    method GetOutput(w: Wait, timeout: Option<int>) returns (r: Result<string, Error>)
      modifies engine
      ensures var (a, l) := Await(engine.answer, old(engine.log), w, timeout, true);
        r == Checked(check, a) && engine.log == l
    {
      var a := engine.Expect(w, timeout, true);
      r := Checked(check, a);
    }

    /** One `send_and_expect(cmd)` and `get_output(timeout)`. */
    method AttemptCmd(cmd: string, timeout: Option<int>) returns (r: Result<string, Error>)
      modifies engine
      ensures (r, engine.log) == Attempt(engine.answer, check, old(engine.log), cmd, timeout)
    {
      SendAndExpect(cmd);
      r := GetOutput(Prompt, timeout);
    }

    /** The decorator `nuxmv_cmd`: no warm-up; after a missing boolean
        model, `build_boolean_model`, the prompt, and one more attempt. */
    method Run(cmd: string, timeout: Option<int>) returns (r: Result<string, Error>)
      modifies engine
      ensures (r, engine.log) == Issue(engine.answer, check, old(engine.log), cmd, timeout)
    {
      r := AttemptCmd(cmd, timeout);
      if r.Err? && r.error.NoBooleanModel? {
        SendAndExpect(BUILD);
        var p := engine.Expect(Prompt, None, true);
        if p.Err? {
          return p;
        }
        r := AttemptCmd(cmd, timeout);
      }
    }

    /** `msat_setup(fname, shown_states)`: `reset`, `set shown_states`,
        `set input_file`, `go_msat`, each sent, awaited and checked, in
        that order, up to the first that fails. */
    method MsatSetup(fname: string, shownStates: int) returns (e: Option<Error>)
      modifies engine
      ensures (e, engine.log) == SetupRun(engine.answer, check, old(engine.log), SetupCmds(fname, shownStates))
    {
      var cmds := SetupCmds(fname, shownStates);
      for i := 0 to |cmds|
        invariant SetupRun(engine.answer, check, old(engine.log), cmds)
          == SetupRun(engine.answer, check, engine.log, cmds[i..])
      {
        assert cmds[i..][0] == cmds[i] && cmds[i..][1..] == cmds[i + 1..];
        engine.SendLine(cmds[i]);
        var out := GetOutput(Prompt, None);
        if out.Err? {
          return Some(out.error);
        }
      }
      assert cmds[|cmds|..] == [];
      e := None;
    }

    /** `init(h, c, timeout)`: picks the initial state among the
        candidates nuXmv lists, tells nuXmv the choice, checks its answer,
        and returns the chosen state without its header. `pick` is what
        the heuristic answered. */
    method Init(h: Heuristic, c: Option<string>, timeout: Option<int>) returns (r: Result<string, Error>, ghost pick: Pick)
      modifies engine, h
      ensures (r, engine.log) == InitRun(engine.answer, check, old(engine.log), c, timeout, pick)
      ensures r.Ok? ==> Trimmed(r.value)
    {
      SendAndExpect(PickStateCmd(c));
      var out := GetOutput(PickState, timeout);
      if out.Err? {
        return Err(out.error), Ok(0);
      }
      var choice := h.ChooseFrom(|Candidates(out.value)|);
      pick := choice;
      var chosen := ChosenBy(Candidates(out.value), choice);
      if chosen.Err? {
        return chosen, pick;
      }
      var ack := AttemptCmd(IntToString(choice.value), timeout);
      if ack.Err? {
        return Err(ack.error), pick;
      }
      r := chosen;
    }

    /** `ic3(bound, ltlspec, timeout)` */
    method Ic3(bound: Option<int>, spec: Option<string>, timeout: Option<int>) returns (r: Result<string, Error>)
      modifies engine
      ensures (r, engine.log) == Issue(engine.answer, check, old(engine.log), CheckLtlspecIc3Cmd(bound, spec), timeout)
    {
      r := Run(CheckLtlspecIc3Cmd(bound, spec), timeout);
    }

    /** `ic3_invar(bound, ltlspec, timeout)` */
    method Ic3Invar(bound: Option<int>, spec: Option<string>, timeout: Option<int>) returns (r: Result<string, Error>)
      modifies engine
      ensures (r, engine.log) == Issue(engine.answer, check, old(engine.log), CheckPropertyAsInvarIc3Cmd(bound, spec), timeout)
    {
      r := Run(CheckPropertyAsInvarIc3Cmd(bound, spec), timeout);
    }

    /** `bmc(bound, ltlspec, timeout)` */
    method Bmc(bound: int, spec: Option<string>, timeout: Option<int>) returns (r: Result<string, Error>)
      modifies engine
      ensures (r, engine.log) == Issue(engine.answer, check, old(engine.log), MsatCheckLtlspecBmcCmd(bound, spec), timeout)
    {
      r := Run(MsatCheckLtlspecBmcCmd(bound, spec), timeout);
    }

    /** `reset()` */
    method Reset() returns (r: Result<string, Error>)
      modifies engine
      ensures (r, engine.log) == Issue(engine.answer, check, old(engine.log), "reset", None)
    {
      r := Run("reset", None);
    }

    /** `get_successor_states(c)`: the candidates `msat_simulate` lists;
        the command goes out with a bare `sendline`, and the wait is
        neither guarded nor checked and passes no timeout, so pexpect's
        default applies. */
    method GetSuccessorStates(c: string) returns (r: Result<seq<string>, Error>)
      modifies engine
      ensures var (o, l) := Await(engine.answer, old(engine.log) + [Sent(SimulateCmd(c))], PickState, Some(SPAWN_TIMEOUT), false);
        engine.log == l && r == (if o.Ok? then Ok(Candidates(o.value)) else Err(o.error))
    {
      engine.SendLine(SimulateCmd(c));
      var o := engine.Expect(PickState, Some(SPAWN_TIMEOUT), false);
      if o.Err? {
        return Err(o.error);
      }
      r := Ok(Candidates(o.value));
    }

    /** One step of `simulate`: the candidate successors, the heuristic's
        choice `pick`, the chosen state without its header, and whether
        the text before the next prompt reports the simulation satisfiable
        (that text is not checked by the factory). */
    method SimulationStep(c: string, h: Heuristic) returns (r: Result<(string, bool), Error>, ghost pick: Pick)
      modifies engine, h
      ensures (r, engine.log) == SimStep(engine.answer, old(engine.log), c, pick)
      ensures r.Ok? ==> Trimmed(r.value.0)
    {
      var states := GetSuccessorStates(c);
      if states.Err? {
        return Err(states.error), Ok(0);
      }
      var choice := h.ChooseFrom(|states.value|);
      pick := choice;
      var chosen := ChosenBy(states.value, choice);
      if chosen.Err? {
        return Err(chosen.error), pick;
      }
      SendAndExpect(IntToString(choice.value));
      var out := engine.Expect(Prompt, None, true);
      if out.Err? {
        return Err(out.error), pick;
      }
      r := Ok((chosen.value, Contains(out.value, SIM_SAT)));
    }

    /** `simulate(steps, c, heuristic)`: up to `steps` steps; it stops right
        after the first step nuXmv does not report satisfiable. With no
        step taken the flag is never bound. `picks` are the heuristic's
        answers, one per step taken. */
    method Simulate(steps: int, c: string, h: Heuristic)
      returns (r: Result<(seq<string>, bool), Error>, ghost picks: seq<Pick>)
      modifies engine, h
      ensures steps <= 0 ==> r == Err(Raised(UnboundLocalError)) && engine.log == old(engine.log)
      ensures steps > 0 ==>
        (1 <= |picks| <= steps
         && (r, engine.log) == Simulation(SimSteps(engine.answer, c), old(engine.log), picks))
      ensures r.Ok? ==> |r.value.0| == |picks| && 1 <= |r.value.0| <= steps
      ensures r.Ok? && |r.value.0| < steps ==> !r.value.1
      ensures r.Ok? ==> forall k :: 0 <= k < |r.value.0| ==> Trimmed(r.value.0[k])
    {
      if steps <= 0 {
        return Err(Raised(UnboundLocalError)), [];
      }
      ghost var l0 := engine.log;
      ghost var step := SimSteps(engine.answer, c);
      var result: seq<string> := [];
      picks := [];
      var k := 0;
      while k < steps
        invariant 0 <= k <= steps && |result| == k && |picks| == k
        invariant k == 0 ==> engine.log == l0
        invariant k > 0 ==> Simulation(step, l0, picks) == (Ok((result, true)), engine.log)
        invariant forall j :: 0 <= j < |result| ==> Trimmed(result[j])
      {
        var st;
        ghost var p;
        ghost var before := engine.log;
        st, p := SimulationStep(c, h);
        assert (st, engine.log) == step(before, p);
        if k > 0 {
          SimulationSnoc(step, l0, picks, p);
        } else {
          assert picks + [p] == [p] && (st.Ok? ==> result + [st.value.0] == [st.value.0]);
        }
        picks := picks + [p];
        if st.Err? {
          return Err(st.error), picks;
        }
        AllTrimmedAppend(result, st.value.0);
        result := result + [st.value.0];
        if !st.value.1 {
          return Ok((result, false)), picks;
        }
        k := k + 1;
      }
      r := Ok((result, true));
    }
  }
}

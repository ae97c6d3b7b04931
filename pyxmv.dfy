/** The current driver, `PyXmv`: the error classifier, the command wrapper
    that warms nuXmv up and retries once after building the boolean model,
    the environment bookkeeping, the checking commands and the simulation
    loop, over an abstract nuXmv process. */
module PyXmvDriver {
  import opened Base
  import opened PyStr
  import opened Dicts
  import opened Engine
  import opened Commands
  import opened Heuristics
  import opened Wrapper

  // ------------------------------------------------------------- factory

  /** `PyXmvError.errs`: the fragments that mark a line as an error. */
  const ERRS: seq<string> := [
    "A model must be read before.",
    "illegal operand types",
    "Impossible to build a BDD FSM with infinite precision variables",
    "Nested next operator",
    "No trace: constraint and initial state are inconsistent",
    "not well typed",
    "TYPE ERROR",
    "Type System Violation detected",
    "unexpected expression encountered during parsing"]

  const NO_INPUT_FILE := "You must set the input file before."

  /** `PyXmvError.factory(msg)`: the error the output `msg` raises, if
      any. The missing boolean model wins over the missing input file, and
      both carry the whole stripped output; otherwise the error carries
      exactly the flagged lines, in order. */
  function Factory(msg: string): (r: Option<Error>)
    ensures Contains(msg, NO_BOOLEAN_MODEL) ==> r == Some(NoBooleanModel(Strip(msg)))
    ensures !Contains(msg, NO_BOOLEAN_MODEL) && Contains(msg, NO_INPUT_FILE)
      ==> r == Some(NoInputFile(Strip(msg)))
    ensures !Contains(msg, NO_BOOLEAN_MODEL) && !Contains(msg, NO_INPUT_FILE)
      ==> (r.Some? <==> exists k :: 0 <= k < |SplitLines(msg)| && Flagged(ERRS, SplitLines(msg)[k]))
    ensures !Contains(msg, NO_BOOLEAN_MODEL) && !Contains(msg, NO_INPUT_FILE) && r.Some?
      ==> r.value.Fault? && SplitLines(r.value.msg) == ErrLines(ERRS, SplitLines(msg))
  {
    if Contains(msg, NO_BOOLEAN_MODEL) then Some(NoBooleanModel(Strip(msg)))
    else if Contains(msg, NO_INPUT_FILE) then Some(NoInputFile(Strip(msg)))
    else FaultOf(ERRS, msg)
  }

  // ------------------------------------------- the conversation, as values

  /** What the decorator `nuxmv_cmd` is told about a command: nothing, that
      it needs `go` (`bdd=True`), or that it needs `go_msat` (`msat=True`). */
  datatype Mode = Plain | Bdd | Msat

  /** What the driver's behaviour depends on: the history of the process
      and the two flags. */
  datatype Session = Session(log: seq<Event>, goCalled: bool, goMsatCalled: bool)

  /** Whether a command of `mode` must first warm nuXmv up: a BDD command
      before `go` went through, an MSAT command before `go_msat` did. */
  predicate NeedsWarmUp(s: Session, mode: Mode) {
    (mode == Bdd && !s.goCalled) || (mode == Msat && !s.goMsatCalled)
  }

  /** The command a warm-up sends: `go` for BDD, `go_msat` for MSAT. */
  function WarmUpLine(mode: Mode): string {
    if mode == Msat then "go_msat" else "go"
  }

  /** The session with the flag of `mode` set when `ok`. */
  function Marked(s: Session, mode: Mode, ok: bool): Session {
    if mode == Bdd then s.(goCalled := s.goCalled || ok)
    else if mode == Msat then s.(goMsatCalled := s.goMsatCalled || ok)
    else s
  }

  /** A command through the wrapper alone (`raw`): the stripped line sent,
      with its one retry; the flags stay as they are. */
  function Wrapped(answer: Oracle, check: Check, s: Session, cmd: string, timeout: Option<int>)
    : (Result<string, Error>, Session)
  {
    var (r, l) := Issue(answer, check, s.log, Strip(cmd), timeout);
    (r, s.(log := l))
  }

  /** `go()` for BDD and `go_msat()` for MSAT: the warm-up command through
      the wrapper, then the flag, once the command went through. */
  function WarmUp(answer: Oracle, check: Check, s: Session, mode: Mode): (Result<string, Error>, Session) {
    var (g, l) := Issue(answer, check, s.log, WarmUpLine(mode), None);
    (g, Marked(s.(log := l), mode, g.Ok?))
  }

  /** A decorated command: the wrapper's `if bdd and not go_called: go()
      elif msat and not go_msat_called: go_msat()`, then the command with
      its one retry. */
  function Command(answer: Oracle, check: Check, s: Session, cmd: string, timeout: Option<int>, mode: Mode)
    : (Result<string, Error>, Session)
  {
    if !NeedsWarmUp(s, mode) then Wrapped(answer, check, s, cmd, timeout)
    else
      var (w, s1) := WarmUp(answer, check, s, mode);
      if w.Err? then (w, s1) else Wrapped(answer, check, s1, cmd, timeout)
  }

  /** The warm-up is `raw` of its command: "go" and "go_msat" have nothing
      to strip. */
  lemma WarmUpIsRaw(answer: Oracle, check: Check, s: Session, mode: Mode)
    requires mode != Plain
    ensures var (g, s1) := WarmUp(answer, check, s, mode);
      (g, s1.log) == (Wrapped(answer, check, s, WarmUpLine(mode), None).0,
                      Wrapped(answer, check, s, WarmUpLine(mode), None).1.log)
  {
    var line := WarmUpLine(mode);
    assert Trimmed(line) by {
      if mode == Msat { assert line == "go_msat"; } else { assert line == "go"; }
    }
    StripTrimmed(line);
  }

  /** The flags: a command that went through leaves its mode's flag set, a
      command never touches the other mode's flag, and a flag once set is
      never cleared by a command. */
  lemma WarmUpFlags(answer: Oracle, check: Check, s: Session, cmd: string, timeout: Option<int>, mode: Mode)
    ensures var (r, s1) := Command(answer, check, s, cmd, timeout, mode);
      (s.goCalled ==> s1.goCalled) && (s.goMsatCalled ==> s1.goMsatCalled)
      && (mode != Bdd ==> s1.goCalled == s.goCalled)
      && (mode != Msat ==> s1.goMsatCalled == s.goMsatCalled)
      && (mode == Bdd && r.Ok? ==> s1.goCalled)
      && (mode == Msat && r.Ok? ==> s1.goMsatCalled)
  {
  }

  /** A command that needs a warm-up sends the warm-up command first. */
  lemma WarmUpSentFirst(answer: Oracle, check: Check, s: Session, cmd: string, timeout: Option<int>, mode: Mode)
    requires NeedsWarmUp(s, mode)
    ensures var (_, s1) := Command(answer, check, s, cmd, timeout, mode);
      |s1.log| > |s.log| && s1.log[|s.log|] == Sent(WarmUpLine(mode))
  {
    var (w, s1) := WarmUp(answer, check, s, mode);
    IssueFirst(answer, check, s.log, WarmUpLine(mode), None);
    assert s1.log[|s.log|] == Sent(WarmUpLine(mode));
    if w.Ok? {
      var s2 := Wrapped(answer, check, s1, cmd, timeout).1;
      WrappedExtends(answer, check, s1, cmd, timeout);
      assert s2.log[|s.log|] == s2.log[..|s1.log|][|s.log|];
    }
  }

  /** A command through the wrapper only adds to the history. */
  lemma WrappedExtends(answer: Oracle, check: Check, s: Session, cmd: string, timeout: Option<int>)
    ensures var s1 := Wrapped(answer, check, s, cmd, timeout).1;
      |s1.log| > |s.log| && s1.log[..|s.log|] == s.log
  {
    var l := Issue(answer, check, s.log, Strip(cmd), timeout).1;
    IssueFirst(answer, check, s.log, Strip(cmd), timeout);
    PrefixOfPrefix(l, s.log, Sent(Strip(cmd)));
  }

  lemma PrefixOfPrefix<T>(l: seq<T>, log: seq<T>, e: T)
    requires |l| > |log| && l[..|log| + 1] == log + [e]
    ensures l[..|log|] == log
  {
    assert l[..|log|] == l[..|log| + 1][..|log|];
  }

  /** A command that needs no warm-up sends the stripped command first. */
  lemma CommandSentFirst(answer: Oracle, check: Check, s: Session, cmd: string, timeout: Option<int>, mode: Mode)
    requires !NeedsWarmUp(s, mode)
    ensures var (_, s1) := Command(answer, check, s, cmd, timeout, mode);
      |s1.log| > |s.log| && s1.log[|s.log|] == Sent(Strip(cmd))
  {
    IssueFirst(answer, check, s.log, Strip(cmd), timeout);
  }

  // ------------------------------------------------------------ environment

  /** The command `update_env` sends. */
  function EnvCommand(name: string, value: Option<string>): string {
    if value.None? then "unset " + name else "set " + name + " \"" + value.value + "\""
  }

  /** One line of the listing `set` prints: nothing for a blank line,
      otherwise exactly two whitespace-separated words, the name and the
      value, where "NULL" stands for no value and a quoted value loses its
      first and last characters. */
  function EnvLine(line: string): (r: Result<Option<(string, Option<string>)>, Builtin>)
    ensures r.Ok? && r.value.Some? ==> NoSpace(r.value.value.0) && r.value.value.0 != []
    ensures r.Err? ==> r.error == ValueError
  {
    var l := Strip(line);
    if l == [] then Ok(None)
    else
      var words := SplitWs(l, 2);
      if |words| != 2 then Err(ValueError)
      else
        WordIsWord(l, words);
        Ok(Some((words[0], ValueOf(words[1]))))
  }

  /** A listed value: "NULL" stands for none, a value starting with a
      quote loses its first and last characters. */
  function ValueOf(v: string): Option<string> {
    if v == "NULL" then None
    else if StartsWith(v, "\"") then Some(Slice(v, 1, -1))
    else Some(v)
  }

  /** How `set` lists a value: "NULL" for none, else the value in quotes. */
  function ListedValue(value: Option<string>): string {
    if value.None? then "NULL" else "\"" + value.value + "\""
  }

  /** Reading a listed value back gives the value. */
  lemma ValueRoundTrip(value: Option<string>)
    ensures ValueOf(ListedValue(value)) == value
  {
    if value.Some? {
      var v := ListedValue(value);
      assert v != "NULL" by { assert v[0] == '"'; }
      assert Slice(v, 1, -1) == value.value;
    }
  }

  /** When `split(maxsplit=2)` gives two words, the first has no space. */
  lemma WordIsWord(l: string, words: seq<string>)
    requires words == SplitWs(l, 2) && |words| == 2
    ensures NoSpace(words[0])
  {
    var t := LStrip(l);
    var j := WordEnd(t, 0);
    assert words[0] == t[..j];
  }

  /** `get_env`'s loop from the dictionary `acc` on. */
  function EnvFrom(acc: Dict<Option<string>>, lines: seq<string>): (r: Result<Dict<Option<string>>, Builtin>)
    decreases |lines|
  {
    if lines == [] then Ok(acc)
    else match EnvLine(lines[0])
      case Err(e) => Err(e)
      case Ok(None) => EnvFrom(acc, lines[1..])
      case Ok(Some((name, value))) => EnvFrom(Put(acc, name, value), lines[1..])
  }

  /** Reading the listing into a dict with distinct keys gives one. */
  lemma {:induction false} EnvFromUnique(acc: Dict<Option<string>>, lines: seq<string>)
    requires UniqueKeys(acc) && EnvFrom(acc, lines).Ok?
    ensures UniqueKeys(EnvFrom(acc, lines).value)
    decreases |lines|
  {
    if lines != [] {
      var e := EnvLine(lines[0]);
      if e.Ok? && e.value.Some? {
        PutUnique(acc, e.value.value.0, e.value.value.1);
        EnvFromUnique(Put(acc, e.value.value.0, e.value.value.1), lines[1..]);
      } else {
        EnvFromUnique(acc, lines[1..]);
      }
    }
  }

  /** The dictionary `get_env` reads from the listing `out`. */
  function EnvOf(out: string): Result<Dict<Option<string>>, Builtin> {
    EnvFrom([], SplitLines(out))
  }

  /** How `set` lists a variable: its name, a space, its listed value. */
  function Listed(name: string, value: Option<string>): string {
    name + " " + ListedValue(value)
  }

  /** A listed variable reads back as its name and value, when neither
      holds whitespace. */
  lemma EnvLineRoundTrip(name: string, value: Option<string>)
    requires name != [] && NoSpace(name)
    requires value.Some? ==> NoSpace(value.value)
    ensures EnvLine(Listed(name, value)) == Ok(Some((name, value)))
  {
    var v := ListedValue(value);
    assert NoSpace(v) && v != [];
    var line := Listed(name, value);
    assert line == name + (" " + v);
    StripTrimmed(line);
    TwoWords(name, v);
    ValueRoundTrip(value);
  }

  /** A value with a space inside makes `get_env` fail: the line splits
      into three words, which do not unpack into two names. */
  lemma EnvLineRejectsSpaces(name: string, a: string, b: string)
    requires name != [] && a != [] && b != [] && NoSpace(name) && NoSpace(a) && NoSpace(b)
    ensures EnvLine(name + " " + a + " " + b) == Err(ValueError)
  {
    var line := name + " " + a + " " + b;
    StripTrimmed(line);
    assert line == name + (" " + (a + (" " + b)));
    ThreeWords(name, a, b);
  }

  /** `get_env`'s loop over the lines of the listing. */
  method ParseEnv(out: string) returns (r: Result<Dict<Option<string>>, Builtin>)
    ensures r == EnvOf(out)
  {
    var lines := SplitLines(out);
    var result: Dict<Option<string>> := [];
    var i := 0;
    assert lines[i..] == lines;
    while i < |lines|
      invariant 0 <= i <= |lines|
      invariant EnvOf(out) == EnvFrom(result, lines[i..])
    {
      assert lines[i..][1..] == lines[i + 1..];
      var entry := EnvLine(lines[i]);
      if entry.Err? {
        return Err(entry.error);
      }
      if entry.value.Some? {
        result := Put(result, entry.value.value.0, entry.value.value.1);
      }
      i := i + 1;
    }
    r := Ok(result);
  }

  /** `str(value)` of every entry. */
  function Rendered(d: Dict<Option<string>>): (r: Dict<Option<string>>)
    ensures |r| == |d| && Keys(r) == Keys(d)
    ensures forall i :: 0 <= i < |d| ==> r[i] == (d[i].0, Some(Str(d[i].1)))
  {
    seq(|d|, i requires 0 <= i < |d| => (d[i].0, Some(Str(d[i].1))))
  }

  /** Looking up a rendered entry renders the looked-up value. */
  lemma {:induction false} RenderedGet(d: Dict<Option<string>>, k: string)
    ensures Get(Rendered(d), k) == if k in Keys(d) then Some(Some(Str(Get(d, k).value))) else None
    decreases |d|
  {
    if d != [] {
      assert Rendered(d)[1..] == Rendered(d[1..]);
      assert Keys(d) == [d[0].0] + Keys(d[1..]);
      RenderedGet(d[1..], k);
    }
  }

  /** `reset(reset_env=True)` leaves every default variable holding
      `str` of its default, and every other variable as it was. */
  lemma ResetEnvGet(env: Dict<Option<string>>, defaults: Dict<Option<string>>, k: string)
    requires UniqueKeys(defaults)
    ensures Get(Merge(env, Rendered(defaults)), k)
      == if k in Keys(defaults) then Some(Some(Str(Get(defaults, k).value))) else Get(env, k)
  {
    var r := Rendered(defaults);
    assert UniqueKeys(r) by {
      forall i, j | 0 <= i < j < |r| ensures r[i].0 != r[j].0 {
        assert r[i].0 == defaults[i].0 && r[j].0 == defaults[j].0;
      }
    }
    MergeGet(env, r, k);
    RenderedGet(defaults, k);
  }

  /** `update_env(name, value)` on the history: its command through the
      wrapper, and the error that raises, if any. */
  function SetVar(answer: Oracle, check: Check, log: seq<Event>, name: string, value: Option<string>)
    : (Option<Error>, seq<Event>)
  {
    var (c, l) := Issue(answer, check, log, Strip(EnvCommand(name, value)), None);
    (if c.Err? then Some(c.error) else None, l)
  }

  /** `update_env` for each entry in turn, stopping at the first error. */
  function UpdateAll(answer: Oracle, check: Check, log: seq<Event>, entries: Dict<Option<string>>)
    : (Option<Error>, seq<Event>)
    decreases |entries|
  {
    if entries == [] then (None, log)
    else
      var (u, l) := SetVar(answer, check, log, entries[0].0, entries[0].1);
      if u.Some? then (u, l) else UpdateAll(answer, check, l, entries[1..])
  }

  /** One step of the loop of `reset(reset_env=True)`, on the history and
      on the environment. */
  lemma RestoreStep(answer: Oracle, check: Check, log: seq<Event>, env: Dict<Option<string>>,
                    d: Dict<Option<string>>, i: nat)
    requires i < |d|
    ensures var (u, l) := SetVar(answer, check, log, d[i].0, d[i].1);
      UpdateAll(answer, check, log, d[i..]) == if u.Some? then (u, l) else UpdateAll(answer, check, l, d[i + 1..])
    ensures Merge(env, Rendered(d[i..])) == Merge(Put(env, d[i].0, Some(Str(d[i].1))), Rendered(d[i + 1..]))
  {
    assert d[i..][0] == d[i] && d[i..][1..] == d[i + 1..];
    assert Rendered(d[i..])[0] == (d[i].0, Some(Str(d[i].1)));
    assert Rendered(d[i..])[1..] == Rendered(d[i + 1..]);
  }

  /** The environment after the first `i + 1` defaults were set back is
      the one after the first `i`, with the `i`-th put in. */
  lemma RestorePrefix(env: Dict<Option<string>>, d: Dict<Option<string>>, i: nat)
    requires i < |d|
    ensures Merge(env, Rendered(d[..i + 1])) == Put(Merge(env, Rendered(d[..i])), d[i].0, Some(Str(d[i].1)))
  {
    assert Rendered(d[..i + 1]) == Rendered(d[..i]) + [(d[i].0, Some(Str(d[i].1)))];
    MergeSnoc(env, Rendered(d[..i]), d[i].0, Some(Str(d[i].1)));
  }

  // ---------------------------------------------------------- start-up

  /** `get_env()` on the history: `set` through the wrapper, then the
      listing read line by line; the environment, or the error. */
  function EnvRead(answer: Oracle, check: Check, log: seq<Event>)
    : (Result<Dict<Option<string>>, Error>, seq<Event>)
  {
    var (o, l) := Issue(answer, check, log, "set", None);
    if o.Err? then (Err(o.error), l)
    else if EnvOf(o.value).Err? then (Err(Raised(EnvOf(o.value).error)), l)
    else (Ok(EnvOf(o.value).value), l)
  }

  /** `PyXmv(fname)` once nuXmv is spawned: the first prompt, `get_env()`
      for the defaults, and `update_env("input_file", fname)` when `fname`
      is truthy; the defaults and the environment, or the first error, and
      the history. */
  function Startup(answer: Oracle, check: Check, fname: Option<string>)
    : (Result<(Dict<Option<string>>, Dict<Option<string>>), Error>, seq<Event>)
  {
    var (ready, l0) := Await(answer, [], Prompt, None, true);
    if ready.Err? then (Err(ready.error), l0)
    else
      var (d, l1) := EnvRead(answer, check, l0);
      if d.Err? then (Err(d.error), l1)
      else if TruthySpec(fname).None? then (Ok((d.value, d.value)), l1)
      else
        var (u, l2) := SetVar(answer, check, l1, "input_file", fname);
        (if u.Some? then Err(u.value) else Ok((d.value, Put(d.value, "input_file", Some(fname.value)))), l2)
  }

  /** A driver that starts has listed its environment first: `set` is the
      first line it sent, its defaults and environment have distinct
      names, and the environment is the defaults with `input_file` set to
      the file name, when one is given, and nothing else changed. */
  lemma StartupEnv(answer: Oracle, check: Check, fname: Option<string>, k: string)
    ensures var (r, l) := Startup(answer, check, fname);
      r.Ok? ==>
        |l| > 0 && l[0] == Sent("set")
        && UniqueKeys(r.value.0) && UniqueKeys(r.value.1)
        && (k != "input_file" ==> Get(r.value.1, k) == Get(r.value.0, k))
        && (TruthySpec(fname).Some? ==> Get(r.value.1, "input_file") == Some(Some(fname.value)))
        && (TruthySpec(fname).None? ==> r.value.1 == r.value.0)
  {
    var (r, l) := Startup(answer, check, fname);
    if r.Ok? {
      var l0 := Await(answer, [], Prompt, None, true).1;
      var (o, l1) := Issue(answer, check, l0, "set", None);
      IssueFirst(answer, check, l0, "set", None);
      assert l1[0] == Sent("set");
      EnvFromUnique([], SplitLines(o.value));
      var d := EnvOf(o.value).value;
      if TruthySpec(fname).Some? {
        var line := Strip(EnvCommand("input_file", fname));
        IssueFirst(answer, check, l1, line, None);
        PrefixOfPrefix(l, l1, Sent(line));
        assert l[0] == l[..|l1|][0];
        PutUnique(d, "input_file", Some(fname.value));
        PutGet(d, "input_file", Some(fname.value), k);
        PutGet(d, "input_file", Some(fname.value), "input_file");
      }
    }
  }

  // ------------------------------------------------------------ simulation

  /** The end of `init_simulation` and of a step of `run_simulation` once
      nuXmv listed the candidates `states`: the candidate the heuristic's
      answer `pick` selects, then `raw(str(choice), timeout)`; the chosen
      state and nuXmv's answer to the choice, or the first error. */
  function Told(answer: Oracle, check: Check, s: Session, states: seq<string>, pick: Pick, timeout: Option<int>)
    : (Result<(string, string), Error>, Session)
  {
    var chosen := ChosenBy(states, pick);
    if chosen.Err? then (Err(chosen.error), s)
    else
      var (ack, s1) := Wrapped(answer, check, s, IntToString(pick.value), timeout);
      (if ack.Err? then Err(ack.error) else Ok((chosen.value, ack.value)), s1)
  }

  /** `init_simulation(h, c, timeout)` when the heuristic answers `pick`:
      the stripped `msat_pick_state` command, the guarded and checked wait
      for its listing, then the choice told to nuXmv; the chosen state, or
      the first error. */
  function InitRun(answer: Oracle, check: Check, s: Session, c: Option<string>, timeout: Option<int>, pick: Pick)
    : (Result<string, Error>, Session)
  {
    var (o, l) := Await(answer, s.log + [Sent(Strip(PickStateCmd(c)))], PickState, timeout, true);
    var listing := Checked(check, o);
    if listing.Err? then (Err(listing.error), s.(log := l))
    else
      var (t, s1) := Told(answer, check, s.(log := l), Candidates(listing.value), pick, timeout);
      (if t.Err? then Err(t.error) else Ok(t.value.0), s1)
  }

  /** A step of `run_simulation(steps, c, h)` when the heuristic answers
      `pick`: the stripped `msat_simulate` command, the unguarded and
      unchecked wait for its listing (with pexpect's default timeout), then
      the choice told to nuXmv with no timeout; the chosen state and
      whether nuXmv's answer to the choice reports the simulation
      satisfiable, or the first error. */
  function SimStep(answer: Oracle, check: Check, s: Session, c: string, pick: Pick)
    : (Result<(string, bool), Error>, Session)
  {
    var (o, l) := Await(answer, s.log + [Sent(Strip(SimulateCmd(c)))], PickState, Some(SPAWN_TIMEOUT), false);
    if o.Err? then (Err(o.error), s.(log := l))
    else
      var (t, s1) := Told(answer, check, s.(log := l), Candidates(o.value), pick, None);
      (if t.Err? then Err(t.error) else Ok((t.value.0, Contains(t.value.1, SIM_SAT))), s1)
  }

  /** The steps of `run_simulation(steps, c, h)`. */
  function SimSteps(answer: Oracle, check: Check, c: string): Stepper<Session> {
    (s: Session, p: Pick) => SimStep(answer, check, s, c, p)
  }

  /** What telling nuXmv a choice does when it succeeds: the heuristic
      answered an index, the state returned is the candidate at that
      index, the index is the next line sent and reads back as the answer,
      and the flags stay as they are. */
  lemma ToldSends(answer: Oracle, check: Check, s: Session, states: seq<string>, pick: Pick, timeout: Option<int>)
    ensures var (t, s1) := Told(answer, check, s, states, pick, timeout);
      t.Ok? ==>
        pick.Ok? && Chosen(states, pick.value) == Ok(t.value.0)
        && IntOf(IntToString(pick.value)) == Some(pick.value)
        && |s1.log| > |s.log| && s1.log[..|s.log| + 1] == s.log + [Sent(IntToString(pick.value))]
        && s1.goCalled == s.goCalled && s1.goMsatCalled == s.goMsatCalled
  {
    var (t, s1) := Told(answer, check, s, states, pick, timeout);
    if t.Ok? {
      ToldAck(answer, check, s, states, pick, timeout);
      var line := IntToString(pick.value);
      IntToStringTrimmed(pick.value);
      var (ack, l) := Issue(answer, check, s.log, line, timeout);
      IssueFirst(answer, check, s.log, line, timeout);
      assert s1 == s.(log := l);
      IntOfIntToString(pick.value);
    }
  }

  /** Telling nuXmv a choice returns nuXmv's answer to the index sent. */
  lemma ToldAck(answer: Oracle, check: Check, s: Session, states: seq<string>, pick: Pick, timeout: Option<int>)
    ensures var (t, s1) := Told(answer, check, s, states, pick, timeout);
      t.Ok? ==> pick.Ok? && Wrapped(answer, check, s, IntToString(pick.value), timeout) == (Ok(t.value.1), s1)
  {
  }

  /** `init_simulation` tells nuXmv the index of the state it returns: a
      state comes back only when the listing arrived and passed the
      factory, and then the index of that state among the listed
      candidates is the next line sent. */
  lemma InitTells(answer: Oracle, check: Check, s: Session, c: Option<string>, timeout: Option<int>, pick: Pick)
    ensures var (o, l) := Await(answer, s.log + [Sent(Strip(PickStateCmd(c)))], PickState, timeout, true);
      var (r, s1) := InitRun(answer, check, s, c, timeout, pick);
      r.Ok? ==>
        l == s.log + [Sent(Strip(PickStateCmd(c)))] && Checked(check, o).Ok?
        && pick.Ok? && Chosen(Candidates(o.value), pick.value) == r
        && ChosenFrom(o.value, r.value)
        && |s1.log| > |l| && s1.log[..|l| + 1] == l + [Sent(IntToString(pick.value))]
        && s1.goCalled == s.goCalled && s1.goMsatCalled == s.goMsatCalled
  {
    var (o, l) := Await(answer, s.log + [Sent(Strip(PickStateCmd(c)))], PickState, timeout, true);
    var (r, s1) := InitRun(answer, check, s, c, timeout, pick);
    if r.Ok? {
      ToldSends(answer, check, s.(log := l), Candidates(o.value), pick, timeout);
      ChosenListed(o.value, pick.value);
    }
  }

  /** A step of `run_simulation` tells nuXmv the index of the state it
      returns, right after the listing, and reports the simulation
      satisfiable exactly when nuXmv's answer to that index says so. */
  lemma SimStepTells(answer: Oracle, check: Check, s: Session, c: string, pick: Pick)
    ensures var (o, l) := Await(answer, s.log + [Sent(Strip(SimulateCmd(c)))], PickState, Some(SPAWN_TIMEOUT), false);
      var (r, s1) := SimStep(answer, check, s, c, pick);
      r.Ok? ==>
        l == s.log + [Sent(Strip(SimulateCmd(c)))] && o.Ok?
        && pick.Ok? && Chosen(Candidates(o.value), pick.value) == Ok(r.value.0)
        && ChosenFrom(o.value, r.value.0)
        && |s1.log| > |l| && s1.log[..|l| + 1] == l + [Sent(IntToString(pick.value))]
        && s1.goCalled == s.goCalled && s1.goMsatCalled == s.goMsatCalled
  {
    var (o, l) := Await(answer, s.log + [Sent(Strip(SimulateCmd(c)))], PickState, Some(SPAWN_TIMEOUT), false);
    var (r, s1) := SimStep(answer, check, s, c, pick);
    if r.Ok? {
      ToldSends(answer, check, s.(log := l), Candidates(o.value), pick, None);
      ChosenListed(o.value, pick.value);
    }
  }

  /** A step of `run_simulation` reports the simulation satisfiable
      exactly when nuXmv's answer to the index it sent says so. */
  lemma SimStepFlag(answer: Oracle, check: Check, s: Session, c: string, pick: Pick)
    ensures var (o, l) := Await(answer, s.log + [Sent(Strip(SimulateCmd(c)))], PickState, Some(SPAWN_TIMEOUT), false);
      var (r, s1) := SimStep(answer, check, s, c, pick);
      r.Ok? ==>
        o.Ok? && pick.Ok?
        && var ack := Wrapped(answer, check, s.(log := l), IntToString(pick.value), None).0;
        ack.Ok? && (r.value.1 <==> Contains(ack.value, SIM_SAT))
  {
    var (o, l) := Await(answer, s.log + [Sent(Strip(SimulateCmd(c)))], PickState, Some(SPAWN_TIMEOUT), false);
    var (r, s1) := SimStep(answer, check, s, c, pick);
    if r.Ok? {
      var (t, s2) := Told(answer, check, s.(log := l), Candidates(o.value), pick, None);
      assert r == Ok((t.value.0, Contains(t.value.1, SIM_SAT)));
      ToldAck(answer, check, s.(log := l), Candidates(o.value), pick, None);
    }
  }

  // ------------------------------------------------------------- the class

  /** A `PyXmv` driver: the nuXmv process, the two warm-up flags, the
      environment read when the driver started, and the environment as the
      driver last set it. `check` is the driver's classifier, `Factory`;
      the contracts below hold for any classifier. */
  class PyXmv {
    const engine: Process
    const check: Check
    var goCalled: bool
    var goMsatCalled: bool
    var defaultEnv: Dict<Option<string>>
    var env: Dict<Option<string>>

    ghost predicate Valid()
      reads this
    {
      UniqueKeys(defaultEnv) && UniqueKeys(env)
    }

    function State(): Session
      reads this, engine
    {
      Session(engine.log, goCalled, goMsatCalled)
    }

    constructor Attach(engine: Process)
      ensures this.engine == engine && check == Factory && !goCalled && !goMsatCalled
      ensures defaultEnv == [] && env == [] && Valid()
    {
      this.engine := engine;
      check := Factory;
      goCalled, goMsatCalled := false, false;
      defaultEnv, env := [], [];
    }

    /** `PyXmv(fname)`: fails when `nuxmv` is not on the `PATH`, waits for
        the first prompt, reads the environment, keeps a copy, and sets the
        input file when one is given. */
    static method Open(onPath: bool, answer: Oracle, fname: Option<string>) returns (r: Result<PyXmv, Error>)
      ensures !onPath ==> r == Err(Raised(FileNotFoundError))
      ensures onPath ==> var (st, l) := Startup(answer, Factory, fname);
        (r.Ok? <==> st.Ok?) && (r.Err? ==> r.error == st.error)
        && (r.Ok? ==> r.value.engine.answer == answer && r.value.engine.log == l
                      && r.value.defaultEnv == st.value.0 && r.value.env == st.value.1)
      ensures r.Ok? ==> fresh(r.value) && fresh(r.value.engine) && r.value.Valid() && r.value.check == Factory
      ensures r.Ok? ==> !r.value.goCalled && !r.value.goMsatCalled
      ensures r.Ok? ==> r.value.env == (if TruthySpec(fname).Some?
        then Put(r.value.defaultEnv, "input_file", Some(fname.value)) else r.value.defaultEnv)
    {
      if !onPath {
        return Err(Raised(FileNotFoundError));
      }
      var engine := new Process.Spawn(answer);
      var p := new PyXmv.Attach(engine);
      var ready := engine.Expect(Prompt, None, true);
      if ready.Err? {
        return Err(ready.error);
      }
      ghost var l0 := engine.log;
      var defaults := p.ReadDefaults();
      if defaults.Err? {
        return Err(defaults.error);
      }
      assert EnvRead(answer, Factory, l0) == (Ok(p.defaultEnv), engine.log);
      var named := p.SetInputFile(fname);
      if named.Err? {
        return Err(named.error);
      }
      return Ok(p);
    }

    /** The middle of `__init__`: the environment nuXmv lists is kept
        both as the defaults and as the current environment. */
    method ReadDefaults() returns (r: Result<(), Error>)
      modifies this, engine
      ensures var (d, l) := EnvRead(engine.answer, check, old(engine.log));
        engine.log == l && (r.Ok? <==> d.Ok?) && (r.Err? ==> r.error == d.error)
        && (r.Ok? ==> defaultEnv == d.value && env == d.value)
      ensures r.Ok? ==> Valid()
      ensures goCalled == old(goCalled) && goMsatCalled == old(goMsatCalled)
    {
      var defaults := GetEnv();
      if defaults.Err? {
        return Err(defaults.error);
      }
      defaultEnv, env := defaults.value, defaults.value;
      r := Ok(());
    }

    /** The end of `__init__`: `input_file` is set when a file name is
        given. */
    method SetInputFile(fname: Option<string>) returns (r: Result<(), Error>)
      requires Valid()
      modifies this, engine
      ensures Valid() && defaultEnv == old(defaultEnv)
      ensures goCalled == old(goCalled) && goMsatCalled == old(goMsatCalled)
      ensures TruthySpec(fname).None? ==> r == Ok(()) && env == old(env) && engine.log == old(engine.log)
      ensures TruthySpec(fname).Some? ==>
        var (u, l) := SetVar(engine.answer, check, old(engine.log), "input_file", fname);
        engine.log == l && (r.Ok? <==> u.None?) && (r.Err? ==> r.error == u.value)
        && (r.Ok? ==> env == Put(old(env), "input_file", Some(fname.value)))
    {
      if TruthySpec(fname).Some? {
        var u := UpdateEnv("input_file", fname);
        if u.Err? {
          return Err(u.error);
        }
      }
      r := Ok(());
    }

    /** `send_and_expect(cmd)`: the command is stripped before it is sent. */
    method SendAndExpect(cmd: string)
      modifies engine
      ensures engine.log == old(engine.log) + [Sent(Strip(cmd))]
    {
      engine.SendLine(Strip(cmd));
    }

    /** `get_output(timeout, prompts)`: the wait, then the factory. */
    method GetOutput(w: Wait, timeout: Option<int>) returns (r: Result<string, Error>)
      modifies engine
      ensures var (a, l) := Await(engine.answer, old(engine.log), w, timeout, true);
        r == Checked(check, a) && engine.log == l
    {
      var a := engine.Expect(w, timeout, true);
      r := Checked(check, a);
    }

    /** One `send_and_expect(line)` and `get_output(timeout)` of the
        wrapper, for a line that is already stripped. */
    method AttemptCmd(line: string, timeout: Option<int>) returns (r: Result<string, Error>)
      requires Trimmed(line)
      modifies engine
      ensures (r, engine.log) == Attempt(engine.answer, check, old(engine.log), line, timeout)
    {
      engine.SendLine(line);
      r := GetOutput(Prompt, timeout);
    }

    /** The body of the wrapper after the warm-up, for a stripped line. */
    method IssueCmd(line: string, timeout: Option<int>) returns (r: Result<string, Error>)
      requires Trimmed(line)
      modifies engine
      ensures (r, engine.log) == Issue(engine.answer, check, old(engine.log), line, timeout)
    {
      r := AttemptCmd(line, timeout);
      if r.Err? && r.error.NoBooleanModel? {
        BuildModel();
        var p := engine.Expect(Prompt, None, true);
        if p.Err? {
          return p;
        }
        r := AttemptCmd(line, timeout);
      }
    }

    /** `send_and_expect("build_boolean_model")`: the command has no
        surrounding whitespace to strip. */
    method BuildModel()
      modifies engine
      ensures engine.log == old(engine.log) + [Sent(BUILD)]
    {
      engine.SendLine(BUILD);
    }

    /** The decorator `nuxmv_cmd(bdd=..., msat=...)` around a command. */
    method Run(cmd: string, timeout: Option<int>, mode: Mode) returns (r: Result<string, Error>)
      modifies this, engine
      ensures (r, State()) == Command(engine.answer, check, old(State()), cmd, timeout, mode)
      ensures env == old(env) && defaultEnv == old(defaultEnv)
    {
      if NeedsWarmUp(State(), mode) {
        var g;
        if mode == Bdd {
          g := Go();
        } else {
          g := GoMsat();
        }
        if g.Err? {
          return g;
        }
      }
      r := IssueCmd(Strip(cmd), timeout);
    }

    /** `raw(cmd, timeout)` */
    method Raw(cmd: string, timeout: Option<int>) returns (r: Result<string, Error>)
      modifies this, engine
      ensures (r, State()) == Wrapped(engine.answer, check, old(State()), cmd, timeout)
      ensures env == old(env) && defaultEnv == old(defaultEnv)
    {
      r := Run(cmd, timeout, Plain);
    }

    /** `go()` */
    method Go() returns (r: Result<string, Error>)
      modifies this, engine
      ensures (r, State()) == WarmUp(engine.answer, check, old(State()), Bdd)
      ensures env == old(env) && defaultEnv == old(defaultEnv)
    {
      ghost var s := State();
      r := IssueCmd("go", None);
      ghost var l := engine.log;
      if r.Ok? {
        goCalled := true;
      }
      assert State() == Session(l, s.goCalled || r.Ok?, s.goMsatCalled);
    }

    /** `go_msat()` */
    method GoMsat() returns (r: Result<string, Error>)
      modifies this, engine
      ensures (r, State()) == WarmUp(engine.answer, check, old(State()), Msat)
      ensures env == old(env) && defaultEnv == old(defaultEnv)
    {
      ghost var s := State();
      r := IssueCmd("go_msat", None);
      ghost var l := engine.log;
      if r.Ok? {
        goMsatCalled := true;
      }
      assert State() == Session(l, s.goCalled, s.goMsatCalled || r.Ok?);
    }

    /** `update_env(name, value)`: the variable is set (or unset), then
        `str(value)` is recorded, so an unset variable reads "None". */
    method UpdateEnv(name: string, value: Option<string>) returns (r: Result<(), Error>)
      requires Valid()
      modifies this, engine
      ensures Valid()
      ensures (if r.Ok? then None else Some(r.error), engine.log) == SetVar(engine.answer, check, old(engine.log), name, value)
      ensures env == if r.Ok? then Put(old(env), name, Some(Str(value))) else old(env)
      ensures goCalled == old(goCalled) && goMsatCalled == old(goMsatCalled)
      ensures defaultEnv == old(defaultEnv)
    {
      // `raw` never warms up: the stripped command goes straight out
      ghost var promised := SetVar(engine.answer, check, engine.log, name, value);
      var c := IssueCmd(Strip(EnvCommand(name, value)), None);
      assert promised == (if c.Err? then Some(c.error) else None, engine.log);
      if c.Err? {
        return Err(c.error);
      }
      PutUnique(env, name, Some(Str(value)));
      env := Put(env, name, Some(Str(value)));
      r := Ok(());
    }

    /** `get_env()`: `set`, then the listing read line by line. */
    method GetEnv() returns (r: Result<Dict<Option<string>>, Error>)
      modifies this, engine
      ensures (r, engine.log) == EnvRead(engine.answer, check, old(engine.log))
      ensures r.Ok? ==> UniqueKeys(r.value)
      ensures goCalled == old(goCalled) && goMsatCalled == old(goMsatCalled)
      ensures env == old(env) && defaultEnv == old(defaultEnv)
    {
      var out := IssueCmd("set", None);
      if out.Err? {
        return Err(out.error);
      }
      var d := ParseEnv(out.value);
      if d.Err? {
        return Err(Raised(d.error));
      }
      EnvFromUnique([], SplitLines(out.value));
      r := Ok(d.value);
    }

    /** The loop of `reset(reset_env=True)`: `update_env` for every
        default variable in turn, stopping at the first error. */
    method RestoreDefaults() returns (u: Option<Error>)
      requires Valid()
      modifies this, engine
      ensures Valid() && goCalled == old(goCalled) && goMsatCalled == old(goMsatCalled)
      ensures defaultEnv == old(defaultEnv)
      ensures (u, engine.log) == UpdateAll(engine.answer, check, old(engine.log), defaultEnv)
      ensures u.None? ==> env == Merge(old(env), Rendered(defaultEnv))
      ensures u.Some? ==> exists n :: 0 <= n < |defaultEnv| && env == Merge(old(env), Rendered(defaultEnv[..n]))
    {
      var i := 0;
      assert Rendered(defaultEnv[..0]) == [];
      while i < |defaultEnv|
        invariant 0 <= i <= |defaultEnv| && Valid()
        invariant goCalled == old(goCalled) && goMsatCalled == old(goMsatCalled) && defaultEnv == old(defaultEnv)
        invariant UpdateAll(engine.answer, check, old(engine.log), defaultEnv)
          == UpdateAll(engine.answer, check, engine.log, defaultEnv[i..])
        invariant Merge(old(env), Rendered(defaultEnv)) == Merge(env, Rendered(defaultEnv[i..]))
        invariant env == Merge(old(env), Rendered(defaultEnv[..i]))
      {
        ghost var log0, env0 := engine.log, env;
        var name, value := defaultEnv[i].0, defaultEnv[i].1;
        RestoreStep(engine.answer, check, log0, env0, defaultEnv, i);
        var r := UpdateEnv(name, value);
        ghost var step := SetVar(engine.answer, check, log0, name, value);
        assert step.1 == engine.log;
        if r.Err? {
          assert step.0 == Some(r.error);
          assert env == env0 && i < |defaultEnv|;
          return Some(r.error);
        }
        assert step.0 == None;
        assert env == Put(env0, name, Some(Str(value)));
        RestorePrefix(old(env), defaultEnv, i);
        i := i + 1;
      }
      assert defaultEnv[i..] == [];
      u := None;
    }

    /** `reset(reset_env)`: both flags are cleared first; with `reset_env`
        every default variable is set back in turn; then `reset` is sent,
        without any warm-up. */
    method Reset(resetEnv: bool) returns (r: Result<string, Error>)
      requires Valid()
      modifies this, engine
      ensures Valid() && !goCalled && !goMsatCalled && defaultEnv == old(defaultEnv)
      ensures !resetEnv ==> (r, engine.log) == Issue(engine.answer, check, old(engine.log), "reset", None)
      ensures resetEnv ==> var (u, l) := UpdateAll(engine.answer, check, old(engine.log), defaultEnv);
        if u.Some? then r == Err(u.value) && engine.log == l
        else (r, engine.log) == Issue(engine.answer, check, l, "reset", None)
      ensures r.Ok? ==> env == if resetEnv then Merge(old(env), Rendered(defaultEnv)) else old(env)
      ensures r.Err? && resetEnv && UpdateAll(engine.answer, check, old(engine.log), defaultEnv).0.Some? ==>
        exists n :: 0 <= n < |defaultEnv| && env == Merge(old(env), Rendered(defaultEnv[..n]))
      ensures r.Err? && (!resetEnv || UpdateAll(engine.answer, check, old(engine.log), defaultEnv).0.None?) ==>
        env == if resetEnv then Merge(old(env), Rendered(defaultEnv)) else old(env)
    {
      goCalled, goMsatCalled := false, false;
      if resetEnv {
        var u := RestoreDefaults();
        if u.Some? {
          return Err(u.value);
        }
      }
      r := IssueCmd("reset", None);
    }

    /** `check_ltlspec(ltlspec, timeout)`, a BDD command. */
    method CheckLtlspec(spec: Option<string>, timeout: Option<int>) returns (r: Result<string, Error>)
      modifies this, engine
      ensures (r, State()) == Command(engine.answer, check, old(State()), CheckLtlspecCmd(spec), timeout, Bdd)
      ensures env == old(env) && defaultEnv == old(defaultEnv)
    {
      r := Run(CheckLtlspecCmd(spec), timeout, Bdd);
    }

    /** `check_ltlspec_ic3(bound, ltlspec, timeout)`, an MSAT command. */
    method CheckLtlspecIc3(bound: Option<int>, spec: Option<string>, timeout: Option<int>)
      returns (r: Result<string, Error>)
      modifies this, engine
      ensures (r, State()) == Command(engine.answer, check, old(State()), CheckLtlspecIc3Cmd(bound, spec), timeout, Msat)
      ensures env == old(env) && defaultEnv == old(defaultEnv)
    {
      r := Run(CheckLtlspecIc3Cmd(bound, spec), timeout, Msat);
    }

    /** `check_property_as_invar_ic3(bound, ltlspec, timeout)`, an MSAT
        command. */
    method CheckPropertyAsInvarIc3(bound: Option<int>, spec: Option<string>, timeout: Option<int>)
      returns (r: Result<string, Error>)
      modifies this, engine
      ensures (r, State()) == Command(engine.answer, check, old(State()), CheckPropertyAsInvarIc3Cmd(bound, spec), timeout, Msat)
      ensures env == old(env) && defaultEnv == old(defaultEnv)
    {
      r := Run(CheckPropertyAsInvarIc3Cmd(bound, spec), timeout, Msat);
    }

    /** `msat_check_ltlspec_bmc(bound, ltlspec, timeout)`, an MSAT command. */
    method MsatCheckLtlspecBmc(bound: int, spec: Option<string>, timeout: Option<int>)
      returns (r: Result<string, Error>)
      modifies this, engine
      ensures (r, State()) == Command(engine.answer, check, old(State()), MsatCheckLtlspecBmcCmd(bound, spec), timeout, Msat)
      ensures env == old(env) && defaultEnv == old(defaultEnv)
    {
      r := Run(MsatCheckLtlspecBmcCmd(bound, spec), timeout, Msat);
    }

    /** `init_simulation(h, c, timeout)`: picks the initial state among the
        candidates nuXmv lists, tells nuXmv the choice, and returns the
        chosen state without its header. `pick` is what the heuristic
        answered. */
    method InitSimulation(h: Heuristic, c: Option<string>, timeout: Option<int>)
      returns (r: Result<string, Error>, ghost pick: Pick)
      modifies this, engine, h
      ensures (r, State()) == InitRun(engine.answer, check, old(State()), c, timeout, pick)
      ensures r.Ok? ==> Trimmed(r.value)
      ensures env == old(env) && defaultEnv == old(defaultEnv)
    {
      ghost var s0 := State();
      SendAndExpect(PickStateCmd(c));
      ghost var waited := Await(engine.answer, engine.log, PickState, timeout, true);
      var out := GetOutput(PickState, timeout);
      assert out == Checked(check, waited.0) && State() == s0.(log := waited.1);
      if out.Err? {
        return Err(out.error), Ok(0);
      }
      var t;
      t, pick := TellChoice(Candidates(out.value), h, timeout);
      if t.Err? {
        return Err(t.error), pick;
      }
      r := Ok(t.value.0);
    }

    /** The end of `init_simulation` and of a step of `run_simulation`:
        the heuristic's choice `pick` among the candidates `states`, the
        chosen state without its header, and `raw(str(choice), timeout)`. */
    method TellChoice(states: seq<string>, h: Heuristic, timeout: Option<int>)
      returns (r: Result<(string, string), Error>, ghost pick: Pick)
      modifies this, engine, h
      ensures (r, State()) == Told(engine.answer, check, old(State()), states, pick, timeout)
      ensures r.Ok? ==> Trimmed(r.value.0)
      ensures goCalled == old(goCalled) && goMsatCalled == old(goMsatCalled)
      ensures env == old(env) && defaultEnv == old(defaultEnv)
    {
      var choice := h.ChooseFrom(|states|);
      pick := choice;
      var chosen := ChosenBy(states, choice);
      if chosen.Err? {
        return Err(chosen.error), pick;
      }
      var ack := Raw(IntToString(choice.value), timeout);
      if ack.Err? {
        return Err(ack.error), pick;
      }
      r := Ok((chosen.value, ack.value));
    }

    /** `get_successor_states(c)`: the candidates `msat_simulate` lists;
        its wait is not guarded, passes no timeout (so pexpect's default
        applies), and its output is not checked. */
    method GetSuccessorStates(c: string) returns (r: Result<seq<string>, Error>)
      modifies engine
      ensures var (o, l) := Await(engine.answer, old(engine.log) + [Sent(Strip(SimulateCmd(c)))], PickState, Some(SPAWN_TIMEOUT), false);
        engine.log == l && r == (if o.Ok? then Ok(Candidates(o.value)) else Err(o.error))
    {
      SendAndExpect(SimulateCmd(c));
      var o := engine.Expect(PickState, Some(SPAWN_TIMEOUT), false);
      if o.Err? {
        return Err(o.error);
      }
      r := Ok(Candidates(o.value));
    }

    /** One step of `run_simulation`: the candidate successors, the
        heuristic's choice `pick`, the chosen state without its header,
        and whether nuXmv's answer to the choice reports the simulation
        satisfiable. */
    method SimulationStep(c: string, h: Heuristic) returns (r: Result<(string, bool), Error>, ghost pick: Pick)
      modifies this, engine, h
      ensures (r, State()) == SimStep(engine.answer, check, old(State()), c, pick)
      ensures r.Ok? ==> Trimmed(r.value.0)
      ensures goCalled == old(goCalled) && goMsatCalled == old(goMsatCalled)
      ensures env == old(env) && defaultEnv == old(defaultEnv)
    {
      var states := GetSuccessorStates(c);
      if states.Err? {
        return Err(states.error), Ok(0);
      }
      var t;
      t, pick := TellChoice(states.value, h, None);
      if t.Err? {
        return Err(t.error), pick;
      }
      r := Ok((t.value.0, Contains(t.value.1, SIM_SAT)));
    }

    /** `run_simulation(steps, c, heuristic)`: up to `steps` steps, each
        choosing a successor and telling nuXmv the choice; it stops right
        after the first step nuXmv does not report satisfiable. With no
        step taken the flag is never bound. `picks` are the heuristic's
        answers, one per step taken. */
    method RunSimulation(steps: int, c: string, h: Heuristic)
      returns (r: Result<(seq<string>, bool), Error>, ghost picks: seq<Pick>)
      modifies this, engine, h
      ensures steps <= 0 ==> r == Err(Raised(UnboundLocalError)) && State() == old(State())
      ensures steps > 0 ==>
        (1 <= |picks| <= steps
         && (r, State()) == Simulation(SimSteps(engine.answer, check, c), old(State()), picks))
      ensures r.Ok? ==> |r.value.0| == |picks| && 1 <= |r.value.0| <= steps
      ensures r.Ok? && |r.value.0| < steps ==> !r.value.1
      ensures r.Ok? ==> forall k :: 0 <= k < |r.value.0| ==> Trimmed(r.value.0[k])
      ensures goCalled == old(goCalled) && goMsatCalled == old(goMsatCalled)
      ensures env == old(env) && defaultEnv == old(defaultEnv)
    {
      if steps <= 0 {
        return Err(Raised(UnboundLocalError)), [];
      }
      ghost var s0 := State();
      ghost var step := SimSteps(engine.answer, check, c);
      var result: seq<string> := [];
      picks := [];
      var k := 0;
      while k < steps
        invariant 0 <= k <= steps && |result| == k && |picks| == k
        invariant k == 0 ==> State() == s0
        invariant k > 0 ==> Simulation(step, s0, picks) == (Ok((result, true)), State())
        invariant forall j :: 0 <= j < |result| ==> Trimmed(result[j])
        invariant goCalled == old(goCalled) && goMsatCalled == old(goMsatCalled)
        invariant env == old(env) && defaultEnv == old(defaultEnv)
      {
        var st;
        ghost var p;
        ghost var before := State();
        st, p := SimulationStep(c, h);
        assert (st, State()) == step(before, p);
        if k > 0 {
          SimulationSnoc(step, s0, picks, p);
        } else {
          assert picks + [p] == [p] && (st.Ok? ==> result + [st.value.0] == [st.value.0]);
        }
        picks := picks + [p];
        if st.Err? {
          return Err(st.error), picks;
        }
        AllTrimmedAppend(result, st.value.0);
        result := result + [st.value.0];
        if !st.value.1 {
          return Ok((result, false)), picks;
        }
        k := k + 1;
      }
      r := Ok((result, true));
    }
  }
}

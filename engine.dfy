/** The nuXmv child process both drivers talk to, reduced to what the
    drivers observe of it: the lines sent to it, the interrupts sent after a
    prompt failed to come, and the text it prints before each awaited
    prompt. The terminal plumbing (spawning, echo, pattern matching on the
    output) is not modelled; an `Oracle` stands for nuXmv's behaviour. */
module Engine {
  import opened Base

  /** What a driver does to the process. */
  datatype Event = Sent(line: string) | Interrupt

  /** The prompts a driver waits for: `nuXmv > `, or one of the two
      state-picking prompts of `msat_pick_state` and `msat_simulate`. */
  datatype Wait = Prompt | PickState

  /** nuXmv's behaviour: given everything the driver did so far, the prompt
      it waits for and the timeout, the text printed before that prompt, or
      `None` when the prompt does not come in time. */
  type Oracle = (seq<Event>, Wait, Option<int>) -> Option<string>

  /** The timeout, in seconds, pexpect gives a spawned process; a wait
      that passes no timeout of its own (`expect(patterns)`) uses it, while
      one that passes `None` (`expect_prompt()`) waits for ever. */
  const SPAWN_TIMEOUT := 30

  /** The errors the drivers raise: the three `PyXmvError` kinds the
      factories build, `PyXmvTimeout` (a wait that timed out and was
      interrupted), pexpect's own `TIMEOUT` (a wait the driver does not
      guard), and a Python built-in exception. */
  datatype Error =
    | NoBooleanModel(msg: string)
    | NoInputFile(msg: string)
    | Fault(msg: string)
    | Timeout
    | ExpectTimeout
    | Raised(builtin: Builtin)

  /** The lines sent among `events`, in order. */
  function SentLines(events: seq<Event>): seq<string>
  {
    if events == [] then []
    else
      var last := events[|events| - 1];
      SentLines(events[..|events| - 1]) + (if last.Sent? then [last.line] else [])
  }

  /** The lines sent over a history are those of each part, in turn. */
  lemma {:induction false} SentLinesAppend(a: seq<Event>, b: seq<Event>)
    ensures SentLines(a + b) == SentLines(a) + SentLines(b)
    decreases |b|
  {
    if b == [] {
      assert a + b == a;
    } else {
      var b' := b[..|b| - 1];
      assert (a + b)[..|a + b| - 1] == a + b';
      SentLinesAppend(a, b');
    }
  }

  /** A line sent, possibly followed by an interrupt, sends that line. */
  lemma SentOne(line: string, interrupted: bool)
    ensures SentLines([Sent(line)] + (if interrupted then [Interrupt] else [])) == [line]
  {
    assert [Sent(line)][..0] == [];
    if interrupted {
      var e := [Sent(line)] + [Interrupt];
      assert e[..1] == [Sent(line)] && e[1] == Interrupt;
      assert SentLines(e) == SentLines([Sent(line)]);
    } else {
      assert [Sent(line)] + [] == [Sent(line)];
    }
  }

  /** A wait: with a guarded wait (`expect_prompt`, `expect`), a timeout
      sends ctrl-c and raises `PyXmvTimeout`; with an unguarded one it
      raises pexpect's `TIMEOUT` and nothing is sent. */
  function Await(answer: Oracle, log: seq<Event>, w: Wait, timeout: Option<int>, guarded: bool)
    : (r: (Result<string, Error>, seq<Event>))
    ensures r.0.Ok? <==> answer(log, w, timeout).Some?
    ensures r.0.Ok? ==> r.0.value == answer(log, w, timeout).value && r.1 == log
    ensures r.0.Err? ==> r.0.error == (if guarded then Timeout else ExpectTimeout)
    ensures r.1 == log + (if r.0.Err? && guarded then [Interrupt] else [])
  {
    match answer(log, w, timeout)
    case Some(text) => (Ok(text), log)
    case None => (Err(if guarded then Timeout else ExpectTimeout), if guarded then log + [Interrupt] else log)
  }

  /** The child process, with the history of what was done to it. */
  class Process {
    const answer: Oracle
    var log: seq<Event>

    /** A freshly spawned `nuxmv -int`, with echo off. */
    constructor Spawn(answer: Oracle)
      ensures this.answer == answer && log == []
    {
      this.answer := answer;
      log := [];
    }

    /** `sendline(line)` */
    method SendLine(line: string)
      modifies this
      ensures log == old(log) + [Sent(line)]
    {
      log := log + [Sent(line)];
    }

    /** A wait for the prompt `w`: the text before it, or the timeout. */
    method Expect(w: Wait, timeout: Option<int>, guarded: bool) returns (r: Result<string, Error>)
      modifies this
      ensures (r, log) == Await(answer, old(log), w, timeout, guarded)
    {
      match answer(log, w, timeout)
      case Some(text) =>
        r := Ok(text);
      case None =>
        r := Err(if guarded then Timeout else ExpectTimeout);
        if guarded {
          log := log + [Interrupt];
        }
    }
  }
}

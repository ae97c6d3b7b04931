/** The `nuxmv_cmd` wrapper both drivers put around their commands, as a
    function of nuXmv's behaviour: send the command, wait for the prompt,
    classify the output, and after a missing boolean model build it and
    try once more. The drivers differ in how they classify output (their
    `PyXmvError.factory`) and in the line they send for a command, so both
    are parameters here. */
module Wrapper {
  import opened Base
  import opened Engine

  /** A driver's `PyXmvError.factory`: the error an output raises, if any. */
  type Check = string -> Option<Error>

  /** The line the wrapper sends to build the boolean model. */
  const BUILD := "build_boolean_model"

  /** `get_output`'s check of the text it waited for. */
  function Checked(check: Check, r: Result<string, Error>): (c: Result<string, Error>)
    ensures r.Err? ==> c == r
    ensures r.Ok? ==> (c.Ok? <==> check(r.value).None?)
    ensures c.Ok? ==> c == r
    ensures c.Err? && r.Ok? ==> c.error == check(r.value).value
  {
    if r.Ok? && check(r.value).Some? then Err(check(r.value).value) else r
  }

  /** `send_and_expect(line)` then `get_output(timeout)`. */
  function Attempt(answer: Oracle, check: Check, log: seq<Event>, line: string, timeout: Option<int>)
    : (Result<string, Error>, seq<Event>)
  {
    var (r, l) := Await(answer, log + [Sent(line)], Prompt, timeout, true);
    (Checked(check, r), l)
  }

  /** The `try`/`except NoBooleanModel` of the wrapper: one attempt, and on
      a missing boolean model `build_boolean_model`, a wait for the prompt
      and one more attempt, whatever it raises. */
  function Issue(answer: Oracle, check: Check, log: seq<Event>, line: string, timeout: Option<int>)
    : (Result<string, Error>, seq<Event>)
  {
    var (r, l) := Attempt(answer, check, log, line, timeout);
    if r.Err? && r.error.NoBooleanModel? then
      var (p, l2) := Await(answer, l + [Sent(BUILD)], Prompt, None, true);
      if p.Err? then (p, l2) else Attempt(answer, check, l2, line, timeout)
    else (r, l)
  }

  /** An attempt sends exactly its line, and interrupts nuXmv only when
      the prompt does not come. */
  lemma AttemptSends(answer: Oracle, check: Check, log: seq<Event>, line: string, timeout: Option<int>)
    ensures var (r, l) := Attempt(answer, check, log, line, timeout);
      (l == log + [Sent(line)] || l == log + [Sent(line), Interrupt])
      && SentLines(l[|log|..]) == [line]
  {
    var (r, l) := Attempt(answer, check, log, line, timeout);
    var (a, _) := Await(answer, log + [Sent(line)], Prompt, timeout, true);
    assert l[|log|..] == [Sent(line)] + (if a.Err? then [Interrupt] else []);
    SentOne(line, a.Err?);
  }

  /** Retry exactly once: a command whose first attempt does not report a
      missing boolean model is sent once and its outcome is that attempt's.
      Otherwise `build_boolean_model` follows; if the prompt after it does
      not come, that timeout is the outcome; if it comes, the command is
      sent a second and last time, and whatever that second attempt
      raises, another missing boolean model included, is the outcome. */
  lemma RetryOnce(answer: Oracle, check: Check, log: seq<Event>, line: string, timeout: Option<int>)
    ensures var (first, l1) := Attempt(answer, check, log, line, timeout);
      var (r, l) := Issue(answer, check, log, line, timeout);
      var retried := first.Err? && first.error.NoBooleanModel?;
      var (built, l2) := Await(answer, l1 + [Sent(BUILD)], Prompt, None, true);
      (!retried ==> (r, l) == (first, l1) && SentLines(l[|log|..]) == [line])
      && (retried ==> SentLines(l[|log|..]) == [line, BUILD] + (if built.Ok? then [line] else []))
      && (retried && built.Err? ==> r == Err(Timeout))
      && (retried && built.Ok? ==> (r, l) == Attempt(answer, check, l2, line, timeout))
  {
    var (first, l1) := Attempt(answer, check, log, line, timeout);
    AttemptSends(answer, check, log, line, timeout);
    if first.Err? && first.error.NoBooleanModel? {
      BuildSends(answer, check, log, line, timeout);
    }
  }

  /** After a missing boolean model: the lines the rebuild and the second
      attempt send. */
  lemma BuildSends(answer: Oracle, check: Check, log: seq<Event>, line: string, timeout: Option<int>)
    requires var (first, _) := Attempt(answer, check, log, line, timeout);
      first.Err? && first.error.NoBooleanModel?
    ensures var (_, l1) := Attempt(answer, check, log, line, timeout);
      var (r, l) := Issue(answer, check, log, line, timeout);
      var built := Await(answer, l1 + [Sent(BUILD)], Prompt, None, true).0;
      |l| > |l1| && l[..|l1| + 1] == l1 + [Sent(BUILD)]
      && SentLines(l[|log|..]) == [line, BUILD] + (if built.Ok? then [line] else [])
  {
    var (first, l1) := Attempt(answer, check, log, line, timeout);
    AttemptSends(answer, check, log, line, timeout);
    var b := l1 + [Sent(BUILD)];
    var (p, l2) := Await(answer, b, Prompt, None, true);
    var extra := if p.Err? then [Interrupt] else [];
    assert l2 == b + extra;
    assert l2[|log|..] == l1[|log|..] + ([Sent(BUILD)] + extra);
    SentLinesAppend(l1[|log|..], [Sent(BUILD)] + extra);
    SentOne(BUILD, p.Err?);
    assert SentLines(l2[|log|..]) == [line, BUILD];
    assert l2[..|l1| + 1] == b;
    if p.Ok? {
      var (r, l) := Attempt(answer, check, l2, line, timeout);
      AttemptSends(answer, check, l2, line, timeout);
      assert l[|log|..] == l2[|log|..] + l[|l2|..];
      SentLinesAppend(l2[|log|..], l[|l2|..]);
      assert l[..|l1| + 1] == b;
    }
  }

  /** Whatever happens, a command's line is the first thing it sends, and
      the history only grows. */
  lemma IssueFirst(answer: Oracle, check: Check, log: seq<Event>, line: string, timeout: Option<int>)
    ensures var (_, l) := Issue(answer, check, log, line, timeout);
      |l| > |log| && l[..|log| + 1] == log + [Sent(line)]
  {
    var (first, l1) := Attempt(answer, check, log, line, timeout);
    AttemptSends(answer, check, log, line, timeout);
    assert l1[..|log| + 1] == log + [Sent(line)];
    if first.Err? && first.error.NoBooleanModel? {
      BuildSends(answer, check, log, line, timeout);
      var (_, l) := Issue(answer, check, log, line, timeout);
      assert l[..|log| + 1] == l[..|l1| + 1][..|log| + 1];
    }
  }
}

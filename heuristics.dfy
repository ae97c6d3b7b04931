/** How a simulation step picks one of the candidate successor states:
    by asking the user (`UserChoice`) or at random (`RandomChoice`). */
module Heuristics {
  import opened Base

  /** `HeuristicsEnum`: the two heuristics, by their command-line values. */
  datatype Kind = Usr | Rnd

  /** The enum's string values. */
  function KindValue(k: Kind): string {
    match k
    case Usr => "user"
    case Rnd => "random"
  }

  /** `HeuristicsEnum(value)`: the member with that value, if any. */
  function KindOf(value: string): (k: Option<Kind>)
    ensures k.Some? ==> KindValue(k.value) == value
  {
    if value == "user" then Some(Usr)
    else if value == "random" then Some(Rnd)
    else None
  }

  /** Reading a member's value back gives the member. */
  lemma KindRoundTrip(k: Kind)
    ensures KindOf(KindValue(k)) == Some(k)
  {
    match k
    case Usr =>
    case Rnd => assert "random" != "user";
  }

  // ------------------------------------------------------------ UserChoice

  /** One line the user typed, as `int(line)` reads it: `None` when
      `int` raises `ValueError`. */
  type Typed = Option<int>

  /** An answer the prompt for `bound` states accepts. */
  predicate Accepted(bound: nat, t: Typed) {
    t.Some? && 0 <= t.value < bound
  }

  /** `UserChoice.choose_from` on `bound` states, reading the lines in
      `input`: the choice (or the `EOFError` that `input()` raises once the
      lines run out) and the lines left unread. */
  function UserPick(bound: nat, input: seq<Typed>): (r: (Result<int, Builtin>, seq<Typed>))
    ensures |r.1| <= |input| && r.1 == input[|input| - |r.1|..]
    ensures r.0.Ok? ==> (bound == 0 && r.0.value == 0) || 0 <= r.0.value < bound
    ensures r.0.Err? ==> r.0 == Err(EOFError) && r.1 == []
    ensures bound == 0 ==> r == (Ok(0), input)
    decreases |input|
  {
    if bound == 0 then (Ok(0), input)
    else if input == [] then (Err(EOFError), [])
    else if Accepted(bound, input[0]) then (Ok(input[0].value), input[1..])
    else UserPick(bound, input[1..])
  }

  /** The choice is the first accepted line, every line before it is
      rejected and re-prompted, and running out of lines means none was
      accepted. */
  lemma {:induction false} UserPickFirstAccepted(bound: nat, input: seq<Typed>)
    requires bound > 0
    ensures var (r, rest) := UserPick(bound, input);
      var used := |input| - |rest|;
      (r.Ok? ==> used > 0 && input[used - 1] == Some(r.value))
      && (forall j :: 0 <= j < used - (if r.Ok? then 1 else 0) ==> !Accepted(bound, input[j]))
    decreases |input|
  {
    if input != [] && !Accepted(bound, input[0]) {
      UserPickFirstAccepted(bound, input[1..]);
      var (r, rest) := UserPick(bound, input[1..]);
      var used := |input[1..]| - |rest|;
      forall j | 0 <= j < used + 1 - (if r.Ok? then 1 else 0)
        ensures !Accepted(bound, input[j])
      {
        if j > 0 { assert input[j] == input[1..][j - 1]; }
      }
      if r.Ok? { assert input[used] == input[1..][used - 1]; }
    }
  }

  /** `UserChoice.choose_from`: with no states it answers 0 without
      prompting; otherwise it prompts until a line reads as an integer in
      range. */
  method ChooseByUser(bound: nat, input: seq<Typed>) returns (choice: Result<int, Builtin>, rest: seq<Typed>)
    ensures (choice, rest) == UserPick(bound, input)
  {
    if bound == 0 {
      return Ok(0), input;
    }
    var c := -1;
    rest := input;
    while !(0 <= c < bound)
      invariant |rest| <= |input|
      invariant !(0 <= c < bound) ==> UserPick(bound, rest) == UserPick(bound, input)
      invariant 0 <= c < bound ==> UserPick(bound, input) == (Ok(c), rest)
      decreases |rest| + (if 0 <= c < bound then 0 else 1)
    {
      if rest == [] {
        return Err(EOFError), [];
      }
      c := if rest[0].Some? then rest[0].value else -1;
      rest := rest[1..];
    }
    choice := Ok(c);
  }

  // ---------------------------------------------------------- RandomChoice

  /** `RandomChoice.choose_from`: `randrange(bound)`, which raises
      `ValueError` on an empty range. Only the range contract of the
      generator is modelled: the draw is any index below `bound`. */
  method ChooseAtRandom(bound: nat) returns (choice: Result<int, Builtin>)
    ensures choice.Ok? <==> bound > 0
    ensures choice.Ok? ==> 0 <= choice.value < bound
    ensures choice.Err? ==> choice.error == ValueError
  {
    if bound == 0 {
      return Err(ValueError);
    }
    var c :| 0 <= c < bound;
    choice := Ok(c);
  }

  // -------------------------------------------------------------- Heuristic

  /** A simulation heuristic: the `kind` it was built as, the seed of a
      `RandomChoice` (`None`: the clock), the number of draws taken from its
      generator so far, and the console lines the user has yet to type. */
  class Heuristic {
    const kind: Kind
    const seed: Option<int>
    var draws: nat
    var input: seq<Typed>

    /** `HeuristicsEnum.get(seed)`: a `UserChoice` for `usr`, a
        `RandomChoice(seed)` for `rnd`. */
    constructor Get(kind: Kind, seed: Option<int>, input: seq<Typed>)
      ensures this.kind == kind && this.draws == 0 && this.input == input
      ensures this.seed == (if kind == Rnd then seed else None)
    {
      this.kind := kind;
      this.seed := if kind == Rnd then seed else None;
      this.draws := 0;
      this.input := input;
    }

    /** `choose_from(states)` on `bound` states. */
    method ChooseFrom(bound: nat) returns (choice: Result<int, Builtin>)
      modifies this
      ensures kind == Usr ==> (choice, input) == UserPick(bound, old(input)) && draws == old(draws)
      ensures kind == Rnd ==> input == old(input) && draws == old(draws) + (if bound > 0 then 1 else 0)
      ensures kind == Rnd ==> (choice.Ok? <==> bound > 0) && (choice.Err? ==> choice.error == ValueError)
      ensures choice.Ok? ==> (kind == Usr && bound == 0 && choice.value == 0) || 0 <= choice.value < bound
    {
      if kind == Usr {
        choice, input := ChooseByUser(bound, input);
      } else {
        choice := ChooseAtRandom(bound);
        if bound > 0 {
          draws := draws + 1;
        }
      }
    }
  }
}

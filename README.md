# pyxmv, modelled in Dafny

pyxmv drives the nuXmv model checker through its interactive shell
(`nuxmv -int`) and turns the text nuXmv prints into structured results.
This project models its core in Dafny and proves properties of that model:

- **the transcript parsers** (`pyxmv/outcome.py`): `Trace.parse_state`,
  `parse_list_of_str`, `of_states`, `Trace.parse`, `full_states`,
  `parsed_states` with `try_parse`, `get_states`, `pprint`,
  `Outcome.parse` and `Outcome.message` (module `Outcomes`), and the
  round trip from `pprint` back through `Trace.parse` (module `TraceText`);
- **the current driver** `PyXmv` (`pyxmv/pyxmv.py`): the error classifier
  `PyXmvError.factory`, the `nuxmv_cmd` wrapper with its warm-up (`go` /
  `go_msat`) and its single retry after `build_boolean_model`, the
  `go_called` / `go_msat_called` flags, `reset`, the `env` bookkeeping
  (`get_env`, `update_env`), the command builders, `init_simulation` and
  `run_simulation` (module `PyXmvDriver`, class `PyXmv`);
- **the older driver** `NuXmvInt` (`pyxmv/nuxmvint.py`): its classifier
  with the fused error fragment, its wrapper, `msat_setup`, `init`,
  `ic3` / `ic3_invar` / `bmc` / `reset` and `simulate` (module
  `NuXmvIntDriver`, class `NuXmvInt`);
- **the simulation heuristics** (`pyxmv/simulation_heuristics.py`):
  `UserChoice.choose_from`, `RandomChoice.choose_from` and
  `HeuristicsEnum.get` (module `Heuristics`).

The nuXmv process is an oracle (`Engine.Oracle`): given the history of
what the driver has sent and interrupted so far, the prompt awaited and
the timeout, it returns the text printed before that prompt, or nothing
when the prompt does not come in time. A driver's `Process` records the
history. Every driver operation is specified by a function of the oracle
and the history (`Startup` for `__init__`, `Command` for a decorated
command, `InitRun` and `SimStep` for the simulation). The simulation
operations also take the heuristic's answers, which the methods return as
ghost out-parameters `pick` / `picks`. Both drivers' simulation loops are
the one function `Commands.Simulation` over their own step. So retries,
warm-ups, the lines sent during a simulation and its stopping rule are
stated as exact histories. A wait that passes no timeout of its own uses
pexpect's default of 30 seconds (`Engine.SPAWN_TIMEOUT`).

Supporting modules:
- `Base`: Option/Result, Python's built-in exceptions, and list helpers.
- `PyStr`: CPython's `str` operations with their own semantics. These are
  `strip`, `startswith`, `in`, `find`, `rfind`, `split`, `split(maxsplit=…)`,
  `splitlines`, `join`, negative slicing and `str(int)`.
- `Dicts`: insertion-ordered dicts, with `d[k] = v` and `d |= e`.
- `Commands`: the text handling the two drivers share.
- `Wrapper`: the `nuxmv_cmd` retry shared by both drivers.

Python dicts are sequences of key/value pairs with distinct keys, so that
`pprint`'s order is kept. Generators become the sequence of what they yield
(`Outcomes.Yielded` also records the exception that stopped one).
Exceptions become the `Err` case of a `Result`.

Behaviour of the code worth noting, which the model keeps:
- pyxmv/pyxmv.py:118-122: when the command fails again after the rebuild,
  the error propagates as the retry raised it, `NoBooleanModel` included.
- pyxmv/pyxmv.py:31-32: `NoInputFile` is raised, and nothing handles it.
- pyxmv/pyxmv.py:134 and 197-199: `reset(reset_env=True)` re-sends every
  default through `update_env`, which stores `str(value)`, so an unset
  default is stored as the text "None".
- pyxmv/outcome.py:89: `parsed.is_integer` is never called (the method
  object is always truthy), so every number goes through `int(...)`.

## Model

| member | source | states |
|---|---|---|
| `Outcomes.ReadLine` | pyxmv/outcome.py:49-53 | a stripped line is skipped exactly when it is blank or starts with "--"; an assignment's key and value are stripped and hold no "=" |
| `Outcomes.ParseState` | pyxmv/outcome.py:45-54 | the loop over the lines equals `StateOf`; it fails (ValueError) exactly on a non-comment line without exactly one "="; the loop flag is read from the last line only; each key holds the value of its last assignment |
| `Outcomes.StateOfMeaning` | pyxmv/outcome.py:45-54 | `parse_state` succeeds iff no line is malformed; the flag is `LoopFlag` of the last line; keys are distinct and each holds its last assigned value |
| `Outcomes.FillOk` | pyxmv/outcome.py:51-53 | filling the dict fails exactly when some line is malformed |
| `Outcomes.FillLastWins` | pyxmv/outcome.py:51-53 | after the fill each key holds the value of its last assignment, a later duplicate overriding an earlier one; an unassigned key keeps its earlier value |
| `Outcomes.StatesOfMeaning` | pyxmv/outcome.py:59 | all chunks parse iff each does, and the k-th result is the k-th chunk's |
| `Outcomes.ParseListOfStr` | pyxmv/outcome.py:57-61 | fails on an empty chunk list (the empty `zip` unpack); on success one state per chunk and every loop index lies in [0, n) |
| `Outcomes.ParseListOfStrMeaning` | pyxmv/outcome.py:57-61 | state i is chunk i's state, and i is a loop index exactly when chunk i's flag is set |
| `Outcomes.OfStates` | pyxmv/outcome.py:64-67 | keeps the description and type given, one state per chunk, loop indexes in range; fails exactly when the chunks do not parse |
| `Outcomes.AfterArrows` | pyxmv/outcome.py:75 | each chunk is replaced by the text after its first "<-"; a chunk without "<-" raises IndexError |
| `Outcomes.ParseTrace` | pyxmv/outcome.py:70-80 | one state per "->" after the header, each parsed from the text after that chunk's first "<-"; loop indexes in [0, n); description and type are stripped |
| `Outcomes.AccumulateGet` | pyxmv/outcome.py:101-105 | the union of the first n deltas gives each key the value of the latest delta that has it |
| `Outcomes.AccumulateStep` | pyxmv/outcome.py:104 | `accum \|= state` lets the new delta override the accumulated keys |
| `Outcomes.FullStatesGet` | pyxmv/outcome.py:101-105 | the i-th full state is the left-to-right union of deltas 0..i, later keys overriding |
| `Outcomes.FullStates` | pyxmv/outcome.py:101-105 | the loop yields exactly one snapshot per delta, the i-th being the union of deltas 0..i |
| `Outcomes.FullStateKeysGrow` | pyxmv/outcome.py:103-105 | a key present in an earlier full state is present in every later one |
| `Outcomes.TryParse` | pyxmv/outcome.py:84-91 | "TRUE" becomes true and "FALSE" false; a value that is not numeric stays the same string |
| `Outcomes.ShowTryParse` | pyxmv/outcome.py:84-91 | a non-numeric value prints back unchanged, except that booleans print as Python's True/False |
| `Outcomes.ParseValues` | pyxmv/outcome.py:94 | a fresh dict with the same keys in the same order, each value coerced; the trace's own states are values and cannot change |
| `Outcomes.GetStatesYieldsTwice` | pyxmv/outcome.py:96-99 | without `parse` each state is yielded once, raw; with `parse`, twice: all parsed, then all raw, because the raw yield has no `else` |
| `Outcomes.MarkersFrom` | pyxmv/outcome.py:127-133 | the positions of the verdict phrases from i on, strictly increasing, and every such position is among them |
| `Outcomes.MarkersComplete` | pyxmv/outcome.py:128-133 | every occurrence of "is true", "is false" or "is unknown" is a marker |
| `Outcomes.FindAll` | pyxmv/outcome.py:130-133 | the `while x != -1` loop collects every occurrence of one phrase, left to right |
| `Outcomes.CollectPlaces` | pyxmv/outcome.py:127-133 | the places collected phrase by phrase are, as a multiset, exactly the verdict markers |
| `Outcomes.OccurrencesAreMarkers` | pyxmv/outcome.py:129-133 | the three phrase scans together find each marker once |
| `Outcomes.SortAscending` | pyxmv/outcome.py:134 | `sorted` gives an ascending permutation |
| `Outcomes.AscendingUnique` | pyxmv/outcome.py:134 | an ascending arrangement of a multiset is unique, so the sorted places are the markers in order |
| `Outcomes.BlockStartsAscending` | pyxmv/outcome.py:134 | the report openings (last "--" before each marker) never move backwards |
| `Outcomes.SlicesTile` | pyxmv/outcome.py:134-137 | the slices are contiguous and non-overlapping, and cover the text from the first opening to the end |
| `Outcomes.SingleReport` | pyxmv/outcome.py:127-141 | a transcript with one verdict phrase gives one slice, from its "--" to the end, with that phrase's verdict |
| `Outcomes.VerdictOf` | pyxmv/outcome.py:138-141 | TRUE iff the slice contains "is true"; UNKNOWN iff it does not and contains "is unknown"; FALSE otherwise |
| `Outcomes.OutcomeOf` | pyxmv/outcome.py:137-150 | the outcome keeps its slice and its verdict; it has a trace iff the verdict is FALSE; logic and specification are stripped |
| `Outcomes.LogicOf` | pyxmv/outcome.py:144 | the logic read from a header is stripped |
| `Outcomes.SpecOf` | pyxmv/outcome.py:145-148 | IndexError exactly when the header lacks "specification"; otherwise a stripped specification |
| `Outcomes.OutcomeOfFields` | pyxmv/outcome.py:142-150 | a report read from its slice carries the logic and the specification read from the slice's header |
| `Outcomes.OutcomeOfHeader` | pyxmv/outcome.py:142-148 | for a header "-- <logic> specification <prop> <verdict phrase>" with a one-word logic and a trimmed property holding neither "specification" nor a verdict phrase, the report's logic is that word and its specification that property |
| `Outcomes.HeaderFields` | pyxmv/outcome.py:144-148 | such a header gives back its logic and its property |
| `Outcomes.HeaderLogic` | pyxmv/outcome.py:144 | the word between "-- " and the next space is the logic |
| `Outcomes.HeaderSpecification` | pyxmv/outcome.py:145-148 | the text after "specification", with the verdict phrase removed and stripped, is the property |
| `Outcomes.HeaderSplit` | pyxmv/outcome.py:145 | the second part of the split at "specification" is everything after its first occurrence |
| `Outcomes.PhraseRemoved` | pyxmv/outcome.py:146-147 | removing the three phrases in turn from text without them, followed by one phrase, leaves the text |
| `Outcomes.OutcomeOfNoSpecification` | pyxmv/outcome.py:145 | a header without "specification" raises IndexError |
| `Outcomes.OutcomeOfFails` | pyxmv/outcome.py:145-149 | with "specification" in the header, reading fails iff the verdict is FALSE and the trace does not parse |
| `Outcomes.OutcomeOfTrace` | pyxmv/outcome.py:149 | the trace is the slice parsed by `Trace.parse` |
| `Outcomes.CollectFrom` | pyxmv/outcome.py:136-150 | the generator yields the reports in order and stops at the first that raises, which is recorded |
| `Outcomes.ParseOutcomes` | pyxmv/outcome.py:126-150 | the method (collect, sort, open at "--", slice, read) yields exactly `OutcomesOf(text)`: one report per marker, in order of position |
| `Outcomes.ReadReports` | pyxmv/outcome.py:136-150 | the slicing loop yields `OutcomesOf(text)` |
| `Outcomes.ReportAt` | pyxmv/outcome.py:136-137 | the k-th report is read from the text between the k-th and the next opening |
| `Outcomes.CollectStep` | pyxmv/outcome.py:136-150 | the generator stops at a failing report, and otherwise yields it before the rest |
| `Outcomes.MessageVerdict` | pyxmv/outcome.py:152-156 | "VERIFICATION <SUCCESSFUL\|FAILED\|INCONCLUSIVE> for …": the verdict line determines the verdict |
| `TraceText.ReadEntry` | pyxmv/outcome.py:49-53 | a printed "    k = v" line, stripped and split at "=", is read back as the assignment of v to k |
| `TraceText.ReadBody` | pyxmv/outcome.py:45-54 | `parse_state` reads a printed state's lines back as that state, with no loop flag |
| `TraceText.PieceSplit` | pyxmv/outcome.py:75 | a printed state piece splits at "<-" into its "State: 1.i" opening and its lines |
| `TraceText.ArrowsOfPieces` | pyxmv/outcome.py:75 | every printed piece contains "<-", and the text after it is that state's lines |
| `TraceText.ReadBodies` | pyxmv/outcome.py:57-61 | the printed states' texts read back as the states, with no loop index |
| `TraceText.ReadHeader` | pyxmv/outcome.py:77-79 | the first two printed lines read back as the description and the type |
| `TraceText.PrintedPieces` | pyxmv/outcome.py:72-74 | the printed text holds no "\nTrace Description:", so the body is the whole text, and it splits at "->" into the header and one piece per state |
| `TraceText.PPrintParse` | pyxmv/outcome.py:107-114 | for a trace with at least one state, the lines `pprint` yields, joined with newlines, parse back by `Trace.parse` to the same states, description and type ("N/A" for an empty one), without loop indexes |
| `TraceText.PPrintNoStates` | pyxmv/outcome.py:57-76 | a trace without states does not round-trip: `pprint` yields only the two header lines (lines 108-110), and `Trace.parse` of their join fails with ValueError, because no "->" chunk follows and the empty list does not unpack |
| `Dicts.PutGet` | pyxmv/outcome.py:53 | after `d[k] = v`, k holds v and every other key is unchanged |
| `Dicts.MergeGet` | pyxmv/outcome.py:104 | after `d \|= e`, a key holds its value in e if e has it, else its value in d |
| `Dicts.MergeSnoc` | pyxmv/pyxmv.py:198-199 | merging one entry more puts that entry into the earlier merge |
| `Commands.Flagged` | pyxmv/pyxmv.py:35 | a line is flagged iff it contains some fragment of `errs` |
| `Commands.ErrLines` | pyxmv/pyxmv.py:33-35 | only flagged lines are kept, and never more lines than were given |
| `Commands.ErrLinesNone` | pyxmv/pyxmv.py:33-36 | nothing is kept exactly when no line is flagged, which is when the factory raises nothing |
| `Commands.ErrLinesAppend` | pyxmv/pyxmv.py:33-35 | the filter keeps the original order |
| `Commands.FaultOf` | pyxmv/pyxmv.py:33-37 | raises iff some line is flagged, and then the message splits back into exactly the flagged lines |
| `PyXmvDriver.Factory` | pyxmv/pyxmv.py:15-37 | a missing boolean model is checked first, then a missing input file, each with the stripped output; otherwise the fault carries exactly the flagged lines in order, or nothing is raised |
| `Commands.CheckLtlspecCmd` | pyxmv/pyxmv.py:171-174 | the property follows "-p" only when it is non-empty |
| `Commands.CheckLtlspecIc3Cmd` | pyxmv/pyxmv.py:176-180 | "-k <bound>" only for a non-zero bound, the property after "-p" only when non-empty; both read back |
| `Commands.CheckPropertyAsInvarIc3Cmd` | pyxmv/pyxmv.py:182-186 | as above with the property after "-L" |
| `Commands.MsatCheckLtlspecBmcCmd` | pyxmv/pyxmv.py:188-191 | "-k <bound>" always, even for 0, and the property after "-p" when non-empty |
| `Commands.OptionsRoundTrip` | pyxmv/pyxmv.py:178-179 | the options read back as the bound and the property they were built from |
| `Commands.IntOfIntToString` | pyxmv/pyxmv.py:178 | `str(bound)` reads back as the bound |
| `Commands.Candidates` | pyxmv/pyxmv.py:165 | `split(STATE_SEP)[1:]` is empty iff the separator is absent, and no candidate contains it |
| `Commands.DropStateHeader` | pyxmv/pyxmv.py:167 | removing the first `re_state` match strips the "N) -----" header nuXmv puts before a state |
| `Commands.DropHeaderNone` | pyxmv/pyxmv.py:167 | text without a header is left unchanged |
| `Commands.Chosen` | pyxmv/pyxmv.py:167 | indexing succeeds for Python's valid (also negative) indexes, else IndexError; the result is stripped |
| `Commands.ChosenListed` | pyxmv/pyxmv.py:165-167 | a chosen state is a listed candidate without its header |
| `Commands.IntToStringTrimmed` | pyxmv/pyxmv.py:168 | `str(choice)` has no surrounding whitespace, so `send_and_expect` sends it as is |
| `Commands.SimulationSnoc` | pyxmv/pyxmv.py:212-220 | a run whose steps were all satisfiable goes on with the next step: its state is appended and its flag is the run's |
| `Commands.SimulationShape` | pyxmv/pyxmv.py:212-221 | a run that succeeds took between one step and one per answer, and stopped early only after a step that was not satisfiable |
| `Commands.SimulationPrefix` | pyxmv/pyxmv.py:218-220 | every step before the last was satisfiable: the first k steps form a run of their own, with the same states and the flag set |
| `Engine.Await` | pyxmv/pyxmv.py:79-93 | a guarded wait that times out sends ctrl-c and raises PyXmvTimeout; otherwise it returns the text before the prompt |
| `Wrapper.Checked` | pyxmv/pyxmv.py:100-101 | the output passes iff the factory raises nothing, else the factory's error |
| `Wrapper.AttemptSends` | pyxmv/pyxmv.py:116-117 | one attempt sends exactly the command, followed by an interrupt only on timeout |
| `Wrapper.RetryOnce` | pyxmv/pyxmv.py:115-122 | without NoBooleanModel the command is sent once; with it, "build_boolean_model" follows, then (if the prompt comes) the command a second and last time, and the retry's error propagates |
| `Wrapper.IssueFirst` | pyxmv/pyxmv.py:115-116 | the command is the first line the wrapper sends |
| `PyXmvDriver.WarmUpFlags` | pyxmv/pyxmv.py:110-113 | a bdd command never touches `go_msat_called` and an msat command never touches `go_called`; a flag once set stays set; after a successful command its mode's flag is set |
| `PyXmvDriver.WarmUpSentFirst` | pyxmv/pyxmv.py:110-113 | a command whose flag is unset sends "go" / "go_msat" first |
| `PyXmvDriver.CommandSentFirst` | pyxmv/pyxmv.py:110-117 | a command whose flag is set sends the stripped command first, with no warm-up |
| `PyXmvDriver.WarmUpIsRaw` | pyxmv/pyxmv.py:150-158 | `go()` and `go_msat()` are `raw` of their command, setting the flag when it succeeds |
| `PyXmvDriver.PyXmv.Open` | pyxmv/pyxmv.py:57-68 | FileNotFoundError when nuxmv is not on the PATH; otherwise the outcome, history, defaults and env are those of `Startup`; both flags start false; env is the defaults, plus input_file when a file name is given |
| `PyXmvDriver.StartupEnv` | pyxmv/pyxmv.py:57-68 | a driver that starts sent "set" first; defaults and env have distinct names; env is the defaults with input_file set to the file name when one is given, and nothing else changed |
| `PyXmvDriver.PyXmv.ReadDefaults` | pyxmv/pyxmv.py:65-66 | the history and the result are those of `EnvRead`; on success both defaults and env are the environment read |
| `PyXmvDriver.PyXmv.SetInputFile` | pyxmv/pyxmv.py:67-68 | nothing is sent without a file name; with one, `update_env("input_file", fname)`, env gaining input_file on success |
| `PyXmvDriver.PyXmv.SendAndExpect` | pyxmv/pyxmv.py:74-77 | the command is stripped before it is sent |
| `PyXmvDriver.PyXmv.GetOutput` | pyxmv/pyxmv.py:95-101 | the wait, then the factory on its text |
| `PyXmvDriver.PyXmv.Run` | pyxmv/pyxmv.py:109-122 | the decorated command equals `Command`: warm-up when needed, then the stripped command with one retry; env untouched |
| `PyXmvDriver.PyXmv.IssueCmd` | pyxmv/pyxmv.py:114-122 | the try/except body equals `Wrapper.Issue` |
| `PyXmvDriver.PyXmv.Raw` | pyxmv/pyxmv.py:126-129 | `raw` does no warm-up and leaves the flags as they are |
| `PyXmvDriver.PyXmv.Go` | pyxmv/pyxmv.py:155-158 | sends "go" through the wrapper and sets `go_called` when it succeeds |
| `PyXmvDriver.PyXmv.GoMsat` | pyxmv/pyxmv.py:150-153 | sends "go_msat" through the wrapper and sets `go_msat_called` when it succeeds |
| `PyXmvDriver.PyXmv.UpdateEnv` | pyxmv/pyxmv.py:131-134 | sends `unset name` or `set name "value"`; on success env[name] = str(value), "None" for an unset variable; flags untouched |
| `PyXmvDriver.EnvLine` | pyxmv/pyxmv.py:140-147 | a line that is read names a non-empty variable without whitespace; the only failure is ValueError, from the two-name unpacking |
| `PyXmvDriver.ValueRoundTrip` | pyxmv/pyxmv.py:143-146 | "NULL" reads as None and a quoted value loses its first and last characters |
| `PyXmvDriver.EnvLineRoundTrip` | pyxmv/pyxmv.py:139-147 | a listed variable without spaces reads back as its name and value |
| `PyXmvDriver.EnvLineRejectsSpaces` | pyxmv/pyxmv.py:142 | a value with a space inside makes the two-name unpacking raise ValueError |
| `PyXmvDriver.EnvFromUnique` | pyxmv/pyxmv.py:138-147 | the dict read has distinct keys |
| `PyXmvDriver.ParseEnv` | pyxmv/pyxmv.py:138-148 | the loop over the listing equals `EnvOf` |
| `PyXmvDriver.PyXmv.GetEnv` | pyxmv/pyxmv.py:136-148 | the result and the history are `EnvRead`'s: "set" through the wrapper, then its listing read; errors of either propagate; the names read are distinct |
| `PyXmvDriver.RenderedGet` | pyxmv/pyxmv.py:134 | each stored value is `str` of the value given |
| `PyXmvDriver.ResetEnvGet` | pyxmv/pyxmv.py:197-199 | after restoring, every default variable holds str(default), and every other variable is unchanged |
| `PyXmvDriver.PyXmv.RestoreDefaults` | pyxmv/pyxmv.py:197-199 | `update_env` for each default in order, stopping at the first error; env then holds the defaults set back so far: all of them, or a strict prefix after an error |
| `PyXmvDriver.RestorePrefix` | pyxmv/pyxmv.py:198-199 | setting back one default more puts its `str` into the environment |
| `PyXmvDriver.PyXmv.Reset` | pyxmv/pyxmv.py:193-200 | both flags are cleared before anything is sent; with `reset_env` the defaults are restored first; then "reset" is sent without warm-up; env as `RestoreDefaults` leaves it |
| `PyXmvDriver.PyXmv.CheckLtlspec` | pyxmv/pyxmv.py:171-174 | a bdd command: `go` when needed, then the command |
| `PyXmvDriver.PyXmv.CheckLtlspecIc3` | pyxmv/pyxmv.py:176-180 | an msat command: `go_msat` when needed, then the command |
| `PyXmvDriver.PyXmv.CheckPropertyAsInvarIc3` | pyxmv/pyxmv.py:182-186 | an msat command: `go_msat` when needed, then the command |
| `PyXmvDriver.PyXmv.MsatCheckLtlspecBmc` | pyxmv/pyxmv.py:188-191 | an msat command: `go_msat` when needed, then the command |
| `PyXmvDriver.PyXmv.InitSimulation` | pyxmv/pyxmv.py:160-169 | the result and the new state are `InitRun`'s for the heuristic's answer `pick`; the state returned is stripped |
| `PyXmvDriver.PyXmv.TellChoice` | pyxmv/pyxmv.py:166-168 | the heuristic's answer, the candidate it selects, then `raw(str(choice))`, as `Told` |
| `PyXmvDriver.ToldSends` | pyxmv/pyxmv.py:166-168 | when telling succeeds, the heuristic answered an index, the state is the candidate at it, `str(choice)` is the next line sent and reads back as the index, and the flags are unchanged |
| `PyXmvDriver.ToldAck` | pyxmv/pyxmv.py:168 | the text returned is nuXmv's answer to the index sent |
| `PyXmvDriver.InitTells` | pyxmv/pyxmv.py:160-169 | a state comes back only after the stripped `msat_pick_state` command and a listing that passed the factory; it is the listed candidate at the heuristic's index, and that index is the next line sent |
| `PyXmvDriver.PyXmv.GetSuccessorStates` | pyxmv/pyxmv.py:202-207 | the candidates after the stripped `msat_simulate` command; the wait is unguarded, with pexpect's default timeout, and unchecked |
| `PyXmvDriver.PyXmv.SimulationStep` | pyxmv/pyxmv.py:213-218 | the result and the new state are `SimStep`'s for the heuristic's answer `pick`; the state is stripped; flags and env unchanged |
| `PyXmvDriver.SimStepTells` | pyxmv/pyxmv.py:213-217 | a step's state is the listed candidate at the heuristic's index, and that index is the next line sent after the `msat_simulate` command |
| `PyXmvDriver.SimStepFlag` | pyxmv/pyxmv.py:217-218 | a step reports the simulation satisfiable exactly when nuXmv's answer to the index contains "Simulation is SAT" |
| `PyXmvDriver.PyXmv.RunSimulation` | pyxmv/pyxmv.py:209-221 | steps <= 0 raises UnboundLocalError with nothing sent; otherwise one heuristic answer per step taken, and the result and new state are `Simulation` of `SimStep` over them; 1..steps states, fewer only after a step without "Simulation is SAT" |
| `NuXmvIntDriver.Factory` | pyxmv/nuxmvint.py:14-32 | NoBooleanModel first, with the stripped output; else exactly the lines with a fragment of the fused list; there is no NoInputFile case |
| `NuXmvIntDriver.FusedFragmentMissesTypeError` | pyxmv/nuxmvint.py:19-20 | the line "TYPE ERROR" passes the classifier as written |
| `NuXmvIntDriver.FusedFragmentMissesNotWellTyped` | pyxmv/nuxmvint.py:19-20 | the line "not well typed" passes the classifier as written |
| `NuXmvIntDriver.CorrectedFactory` | pyxmv/nuxmvint.py:14-32 | the classifier with the comma restored |
| `NuXmvIntDriver.CorrectedCatchesNotWellTyped` | pyxmv/nuxmvint.py:19-20 | with the comma restored, "not well typed" is flagged |
| `NuXmvIntDriver.CorrectedFlagsMore` | pyxmv/nuxmvint.py:19-20 | every line the fused list flags, the corrected list flags too |
| `NuXmvIntDriver.CorrectedFactoryCovers` | pyxmv/nuxmvint.py:24-32 | every output the classifier as written rejects, the corrected one rejects too |
| `NuXmvIntDriver.SetupStopsAtFirstError` | pyxmv/nuxmvint.py:103-114 | the lines sent are a prefix of the setup commands; all of them when none failed, else up to the failing one, the earlier ones having passed |
| `NuXmvIntDriver.NuXmvInt.Open` | pyxmv/nuxmvint.py:48-54 | FileNotFoundError when nuxmv is not on the PATH; otherwise ready iff the first prompt comes |
| `NuXmvIntDriver.NuXmvInt.SendAndExpect` | pyxmv/nuxmvint.py:60-62 | the command is sent as given, unstripped |
| `NuXmvIntDriver.NuXmvInt.Run` | pyxmv/nuxmvint.py:88-101 | no warm-up; after NoBooleanModel, build, prompt and one retry, as `Wrapper.Issue` |
| `NuXmvIntDriver.NuXmvInt.MsatSetup` | pyxmv/nuxmvint.py:103-114 | sends "reset", "set shown_states n", "set input_file f", "go_msat" in order, each checked, stopping at the first error |
| `NuXmvIntDriver.NuXmvInt.Init` | pyxmv/nuxmvint.py:116-126 | the result and the history are `InitRun`'s for the heuristic's answer `pick`; the state returned is stripped |
| `NuXmvIntDriver.InitTells` | pyxmv/nuxmvint.py:116-126 | a state comes back only after the unstripped `msat_pick_state` command, a listing that passed the factory, and `str(choice)` sent next and accepted; it is the listed candidate at that index |
| `NuXmvIntDriver.NuXmvInt.Ic3` | pyxmv/nuxmvint.py:128-132 | `check_ltlspec_ic3` with optional "-k" and "-p" through the wrapper |
| `NuXmvIntDriver.NuXmvInt.Ic3Invar` | pyxmv/nuxmvint.py:134-138 | `check_property_as_invar_ic3` with optional "-k" and "-L" through the wrapper |
| `NuXmvIntDriver.NuXmvInt.Bmc` | pyxmv/nuxmvint.py:140-143 | `msat_check_ltlspec_bmc` with "-k" always, through the wrapper |
| `NuXmvIntDriver.NuXmvInt.Reset` | pyxmv/nuxmvint.py:145-147 | "reset" through the wrapper |
| `NuXmvIntDriver.NuXmvInt.GetSuccessorStates` | pyxmv/nuxmvint.py:149-154 | the candidates after a bare `sendline`; the wait is unguarded, with pexpect's default timeout, and unchecked |
| `NuXmvIntDriver.NuXmvInt.SimulationStep` | pyxmv/nuxmvint.py:160-167 | the result and the history are `SimStep`'s for the heuristic's answer `pick`; the state is stripped |
| `NuXmvIntDriver.SimStepTells` | pyxmv/nuxmvint.py:160-167 | the state is the listed candidate at the heuristic's index, `str(choice)` is the one line sent after the listing, and the flag holds exactly when the text before the next prompt contains "Simulation is SAT" |
| `NuXmvIntDriver.NuXmvInt.Simulate` | pyxmv/nuxmvint.py:156-169 | steps <= 0 raises UnboundLocalError with nothing sent; otherwise the result and history are `Simulation` of `SimStep` over the heuristic's answers; 1..steps states, fewer only after a step without "Simulation is SAT" |
| `Heuristics.KindOf` | pyxmv/simulation_heuristics.py:8-10 | a member is found only for its own value |
| `Heuristics.KindRoundTrip` | pyxmv/simulation_heuristics.py:8-10 | each member is found from its value |
| `Heuristics.Heuristic.Get` | pyxmv/simulation_heuristics.py:12-16 | `usr` gives a UserChoice; `rnd` gives a RandomChoice that keeps the seed |
| `Heuristics.ChooseAtRandom` | pyxmv/simulation_heuristics.py:29-30 | an index in [0, n), or ValueError when there are no states |
| `Heuristics.UserPick` | pyxmv/simulation_heuristics.py:37-48 | 0 without reading input when there are no states; otherwise a choice in [0, n) or EOFError once input runs out |
| `Heuristics.UserPickFirstAccepted` | pyxmv/simulation_heuristics.py:41-47 | the choice is the first integer line in range; every earlier line, non-numeric or out of range, is re-prompted |
| `Heuristics.ChooseByUser` | pyxmv/simulation_heuristics.py:37-48 | the prompting loop equals `UserPick` |
| `Heuristics.Heuristic.ChooseFrom` | pyxmv/simulation_heuristics.py:21-48 | dispatches to the user or random choice; a returned choice is in [0, n), or 0 for a user with no states |

## Findings

| source | as written | input that shows it | evidently intended | confidence | as-written member | corrected member |
|---|---|---|---|---|---|---|
| pyxmv/nuxmvint.py:19-20 | the missing comma fuses "not well typed" and "TYPE ERROR" into the one fragment "not well typedTYPE ERROR" | an output line "TYPE ERROR" (or "not well typed") raises nothing | two fragments, as pyxmv/pyxmv.py:22-23 lists them | high, not executed | `NuXmvIntDriver.FusedFragmentMissesTypeError` | `NuXmvIntDriver.CorrectedFactoryCovers` |

The `NuXmvInt` class keeps the classifier as written, because that is the
behaviour of this driver. Its method contracts are stated for any
classifier, so they hold unchanged with `CorrectedFactory`.

## Left out

- The pexpect session itself is not modelled: spawning, `setecho`,
  `searchwindowsize`, matching prompts by text or regex, the echo that
  `expect_exact(cmd)` consumes, and `kill(9)` in `__del__`. The oracle
  stands in for all of it, and echo consumption is assumed to succeed.
- Timeouts are passed to the oracle as values; no clock is modelled.
- `try_parse`'s float conversion is a parameter `toNumber`. It stands for
  `int(float(v))` and is None where `float` or `int` raises ValueError
  (`int` does on "nan"). Float values are not modelled, and neither is the
  OverflowError on "inf".
- `fifo_cache` is treated as the identity; its module is not part of this
  model.
- The `re_state` substitution is written out for its one pattern (digits,
  ") ", 25 dashes, leftmost match); no regex engine is modelled.
- `input()` is a supplied sequence of lines. Each line is already read by
  `int()`, so it is an optional integer. The prompt text is not modelled.
- `RandomChoice`'s generator and its clock-derived seed are not modelled.
  Only `randrange`'s range contract is kept, as a nondeterministic choice,
  and the model counts the draws.
- `get_output` returns `before or ""`; the model's oracle always returns
  text, so the `None` case does not arise.
- Paths (`PathLike`) are strings, and `str(value)` of a number given to
  `update_env` is modelled only for strings and None.
- pyxmv/cli.py is not part of this model: it holds option declarations and
  exit codes only.
- The heuristic is called through `Heuristics.Heuristic.ChooseFrom`, and
  its answer is returned as a ghost `pick` (`picks` for a whole run). The
  simulation contracts hold for any answer. Which answers a heuristic can
  give is `ChooseFrom`'s own contract and is not repeated in them.
- `PyXmvDriver.PyXmv.RestoreDefaults`: after a failing `update_env`, env
  is stated as the defaults before the failing one, merged in. It does not
  name which default failed; the history (`UpdateAll`) does.
- `PyXmvDriver.PyXmv.Reset`: same as `RestoreDefaults` for env after a
  failing restore.
- `TraceText.PPrintParse`: the round trip is proved for raw states
  (`full=False, parse=False`) and for names and values that `parse_state`
  can read back: trimmed, on one line, without "=", "->" or "<-", and not
  starting with "-". Parsed values and accumulated states are not read back.
  The trace must hold at least one state: a trace without states does not
  parse back (ValueError from `parse_list_of_str`), as `PPrintNoStates`
  states.
- `full_states` yields the same dict object each time and keeps updating
  it. The model yields a snapshot per state, so a caller that stores the
  yielded dicts and reads them later is not modelled.

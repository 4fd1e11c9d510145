# DFA construction and evaluation, modelled in Dafny

This project models the `DFA` class of `dfa/core.py`. That class builds a deterministic finite automaton from five inputs:

- a list of states;
- a list of alphabet symbols;
- a transition table written as `s-a-t,s2-b-t2,...`;
- a start state;
- a list of accepted states.

Construction either succeeds or raises. After a successful construction, `check_ownership(w)` runs the automaton over the string `w` one character at a time and reports whether `w` is accepted.

The model has six modules, one file each:

- `Results` (`results.dfy`): `Option`, `Result` and `Outcome`. They stand for Python's `None` and for raised exceptions.
- `Text` (`text.dfy`): Python's `str.split` on a one-character separator, its inverse `Join`, and the regex word-character class `\w`.
- `Construction` (`construction.dfy`): the construction checks as pure functions, with lemmas about them. These are `uniqueness`, `data_valid`, the record format check, `__transition_valid`, `__add_transition` and `__make_transition_function`. `Failure` lists every exception that aborts construction. `Failure.IsWarning()` marks the two that the source raises as `Warning` rather than `ValueError`.
- `Execution` (`execution.dfy`): `DFAStatus`, plus `__transition` and the `check_ownership` loop as pure functions (`Step`, `Scan`, `Run`, `Accepts`). It also has a reference definition, the extended transition function `Delta`, and lemmas linking the two.
- `Automaton` (`automaton.dfy`): the class `Dfa`. Its fields are `states`, `alphabet`, `startState`, `acceptedStates`, `transitionFunction` and `currentState`. Its methods are imperative:
  - `AddTransition`, `AddTransitions` (the loop over the records) and `MakeTransitionFunction` update the table in place.
  - `Transition` and `CheckOwnership` update `currentState`. `CheckOwnership` uses a loop that exits early with `break`.
  - Each method is proved equal to the specification functions above.
  - `Build` is the constructor. It returns the automaton or the failure.
- `Scenarios` (`scenarios.dfy`): example automata. Each is stated for any distinct state names that contain no `-` or `,`, and any distinct one-character word symbols.

In these places `dfa/core.py` behaves differently from what its names and messages suggest; the model follows the code:

- **Both warnings abort construction.** Python's `Warning` is an exception, and nothing catches it. So a repeated accepted state (dfa/core.py:193) and a repeated identical record (dfa/core.py:115) end construction, just like the `ValueError`s.
- **The "not a single transition" error is unreachable.** `str.split` always returns at least one piece, so the check at dfa/core.py:129 never fires. An empty table string becomes the single record `""`, which fails the format check.
- **The format check is weaker than the documented `state-symbol-next_state` format.** The regex `\w*-\w*-\w*` is used with `findall`, so a match anywhere in the record is enough. The unpacking after it then needs exactly two dashes. Net effect: a record is accepted when it has three dash-separated fields and the middle field is made only of word characters. Empty fields pass this check. The membership checks catch them unless `""` is itself a declared state or symbol.
- **Validation stops at the first failure.** It runs in this order: alphabet duplicates, state duplicates, accepted-state duplicates, start state, then accepted states.
- **An unknown symbol is not always reported.** The status `UNKNOWN_SYMBOL_ERROR` (`UnknownSymbolError` in the model) is reported only when no transition was missing before the unknown symbol. If a transition is missing earlier, the scan stops there with `NoTransitions`. Both outcomes reject.

## Model

| member | source | states |
|---|---|---|
| `Text.Split` | dfa/core.py:127 | `str.split` always yields at least one piece, no piece contains the separator, and joining the pieces gives back the input |
| `Text.SplitJoin` | dfa/core.py:105 | splitting a separator-joined list of separator-free pieces returns exactly those pieces (split and join are inverse) |
| `Construction.Uniqueness` | dfa/core.py:32-38 | `uniqueness(c)` is true iff no element of `c` occurs at two positions |
| `Construction.ElementsCount` | dfa/core.py:38 | the set of a list's elements is never larger than the list, and is as large exactly when no element repeats |
| `Construction.FirstMissing` | dfa/core.py:197-199 | the loop over accepted states stops at the first entry that is not a declared state: all earlier entries are declared, and the one it stops at is not |
| `Construction.Validate` | dfa/core.py:183-199 | `data_valid` passes iff the alphabet, states and accepted states have no duplicates, the start state is declared and every accepted state is declared; the only `Warning`-kind failure it reports is the duplicate accepted state |
| `Construction.ValidateReports` | dfa/core.py:183-199 | each construction failure of `data_valid` is reported exactly when its own check fails and all earlier checks pass (alphabet, states, accepted states, start state, then accepted-state membership in list order); validation passes iff all five hold |
| `Construction.ParseRecord` | dfa/core.py:102-105 | a parsed record is three dash-free fields that rebuild the record; a rejected record raises the format error or the unpacking error for that record |
| `Construction.RecordAcceptedIff` | dfa/core.py:102-105 | a record passes the regex and the three-way unpacking iff it splits on `-` into exactly three fields whose middle field is all word characters; the parsed fields joined by `-` give the record back |
| `Construction.ParseFormatted` | dfa/core.py:102-105 | parsing `s-a-t` built from dash-free fields with a word-character symbol returns `(s, a, t)` |
| `Construction.EmptyRecordIsMalformed` | dfa/core.py:102-103 | the empty record fails the format check |
| `Construction.CheckTransition` | dfa/core.py:83-94 | a transition passes iff its source and destination are declared states and its symbol is in the alphabet; an undeclared source is reported first, then an undeclared destination, then an undeclared symbol, each exactly when the earlier checks pass; none is a warning or conflict |
| `Construction.AddRecord` | dfa/core.py:96-118 | a record succeeds iff it parses, passes the checks and its key is unseen, and then exactly that one entry is added, nothing else changes; a seen key with the same target raises the `Warning`, a seen key with a different target the conflict `ValueError`; a malformed record or an undeclared field raises exactly the parse or check error |
| `Construction.BuildTable` | dfa/core.py:120-134 | adding records left to right keeps the starting entries, keeps a well-formed table well formed (declared source, symbol and target), and never raises the "not a single transition" error |
| `Construction.MakeTable` | dfa/core.py:120-134 | a built table is well formed, and the "not a single transition" error at dfa/core.py:129-130 is never the result |
| `Construction.BuildTableContents` | dfa/core.py:120-134 | a successful build keeps the starting entries, contains each record's key mapped to its target, and has no other entries |
| `Construction.BuildTableFirstFailure` | dfa/core.py:132 | a failed build names a record whose predecessors all went in, and adding it to that table raises exactly the reported error: records go left to right, and the first failure aborts |
| `Construction.EmptyTableIsMalformed` | dfa/core.py:102-103 | an empty table string fails with the format error on the record `""` |
| `Construction.Construct` | dfa/core.py:47-57 | validation failures are reported before the table is read; after a successful construction the alphabet, states and accepted states have no duplicates, the start and accepted states are declared, and every table entry is well formed |
| `Execution.Step` | dfa/core.py:136-151 | an unknown symbol leaves the current state unchanged; a missing transition sets it to `None`; otherwise the transition is taken and the status says whether the new state is accepted |
| `Execution.Scan` | dfa/core.py:160-163 | unless the loop stopped or read nothing, its status reports whether the state it ended in is accepted; starting from a state, it loses the state exactly on a missing transition |
| `Execution.Run` | dfa/core.py:157-163 | from the start state, a run that did not stop ends in a state whose acceptance its status reports, and it has no current state exactly when a transition was missing |
| `Execution.Accepts` | dfa/core.py:165-170 | `check_ownership` returns true iff the run did not stop early and ended in an accepted state |
| `Execution.AcceptsIffDelta` | dfa/core.py:153-170 | when every table key uses a declared symbol, the run accepts iff the extended transition function takes the start state through all of `w` to an accepted state; when every character is declared, the run ends in the state `Delta` reaches |
| `Execution.EmptyInput` | dfa/core.py:157-159 | the empty string is accepted iff the start state is accepted, and the run rests in the start state |
| `Execution.RunStopIgnoresRest` | dfa/core.py:160-163 | once a run stops on an unknown symbol or a missing transition, any further characters leave its result unchanged |
| `Execution.UndeclaredRejects` | dfa/core.py:140-141 | an input with any character outside the alphabet is rejected |
| `Execution.UnknownSymbolAfterPrefix` | dfa/core.py:140-141 | after a prefix that does not get stuck, an undeclared character gives `UnknownSymbolError`, whatever follows, and leaves the current state where the prefix led |
| `Execution.OneCharSymbols` | dfa/core.py:140 | the filtered alphabet holds only one-character entries of the alphabet and contains the same one-character strings |
| `Execution.OnlyOneCharSymbolsMatter` | dfa/core.py:160 | dropping the alphabet entries that are not one character long changes no run: such entries can never match |
| `Automaton.Dfa.constructor` | dfa/core.py:52-56 | the fields hold the construction inputs, the table is empty and there is no current state |
| `Automaton.Dfa.DataValid` | dfa/core.py:182-199 | the imperative checks, with their loop over accepted states, return exactly the failure `Validate` specifies, or pass |
| `Automaton.Dfa.AddTransition` | dfa/core.py:96-118 | the table becomes the one `AddRecord` specifies; on every failure the table is unchanged |
| `Automaton.Dfa.AddTransitions` | dfa/core.py:132 | the loop over the records leaves the table `BuildTable` specifies from the table it started with, or returns the first failure |
| `Automaton.Dfa.MakeTransitionFunction` | dfa/core.py:120-134 | splitting the table and adding its records to an empty table leaves the table `MakeTable` specifies, or returns its failure |
| `Automaton.Dfa.Build` | dfa/core.py:47-57 | construction fails iff the specification fails, with the same error; otherwise it yields a fresh automaton holding the inputs and the specified table, with no current state, satisfying all invariants |
| `Automaton.Dfa.Transition` | dfa/core.py:136-151 | the status returned and the new current state are those of `Step` from the old current state |
| `Automaton.Dfa.CheckOwnership` | dfa/core.py:153-170 | the result and the final current state are those of `Run` from the start state. They do not depend on the state before the call, so repeated calls agree. On a valid automaton the result is true iff `Delta` reaches an accepted state |
| `Scenarios.TwoStateTable` | dfa/core.py:120-134 | states [q0, q1], alphabet [x, y], table `q0-x-q1,q1-y-q0` builds exactly the two entries |
| `Scenarios.TwoStateRuns` | dfa/core.py:153-170 | on that automaton "x" and "xyx" are accepted, "xy" stops in q0 and is rejected, an unknown character gives `UnknownSymbolError` in q0, and "y" gives `NoTransitions` with no current state |
| `Scenarios.SelfLoopTable` | dfa/core.py:120-134 | a single self-loop record builds the single-entry table |
| `Scenarios.SelfLoopRuns` | dfa/core.py:153-170 | with an accepting self-loop the empty string, "xxxx" and every string of x's are accepted |
| `Scenarios.ConflictingTargets` | dfa/core.py:117-118 | the same key with two different targets aborts construction with the conflict error |
| `Scenarios.RepeatedRecordAborts` | dfa/core.py:114-115 | the same record twice aborts construction with the duplicate-transition `Warning` |

## Left out

- `Color` and `colored_print` (dfa/core.py:7-18) and the calls at dfa/core.py:166 and dfa/core.py:169 are left out. They only write to the terminal. The model keeps the boolean that `check_ownership` returns.
- `get_string_representation_of_tf` and `__repr__` (dfa/core.py:172-180) are left out. They are debug text that depends on Python's tuple formatting and dict iteration order.
- The exception message texts are left out. Each `Failure` carries the offending values instead.
- The read-only property getters (dfa/core.py:59-81) are not separate members. The class fields are public, and `states`, `alphabet`, `startState` and `acceptedStates` are immutable.
- IsWordChar: models `\w` as ASCII letters, digits and `_`. Python's `\w` on `str` also matches non-ASCII letters and digits, so a record whose middle field contains them is rejected by the model but accepted by the source.
- `MakeTransitionFunction` builds the table directly in the `transitionFunction` field. The source builds a local dict and assigns it at the end. The difference is invisible, because a failed construction produces no object.
- `check_ownership` is modelled for a `str` argument only. Python would also iterate a list of symbols, and then multi-character alphabet entries could match.
- Python's object identity and list aliasing are not modelled. The lists given to the constructor are stored as values.

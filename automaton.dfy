/** The `DFA` class of dfa/core.py. Construction validates its inputs and
    builds the transition table in place; `CheckOwnership` runs the automaton
    by updating the `currentState` field one character at a time. Each method
    is proved equal to the specification functions of modules Construction
    and Execution, whose properties are proved there. */
module Automaton {
  import opened Results
  import opened Text
  import opened Construction
  import opened Execution

  class Dfa {
    const states: seq<string>
    const alphabet: seq<string>
    const startState: string
    const acceptedStates: seq<string>
    var transitionFunction: Table
    var currentState: Option<string>

    /** The invariants of a successfully constructed automaton. */
    ghost predicate Valid()
      reads this
    {
      && NoDuplicates(alphabet) && NoDuplicates(states) && NoDuplicates(acceptedStates)
      && startState in states
      && (forall s :: s in acceptedStates ==> s in states)
      && TableWellFormed(states, alphabet, transitionFunction)
    }

    /** The field assignments of `__init__`, before the table is built. It
        performs no validation and leaves the table empty: `Build` is the only
        way to obtain a constructed automaton, as `DFA(...)` in the source. */
    constructor (states: seq<string>, alphabet: seq<string>, startState: string,
                 acceptedStates: seq<string>)
      ensures this.states == states && this.alphabet == alphabet
      ensures this.startState == startState && this.acceptedStates == acceptedStates
      ensures transitionFunction == map[] && currentState == None
    {
      this.states := states;
      this.alphabet := alphabet;
      this.startState := startState;
      this.acceptedStates := acceptedStates;
      transitionFunction := map[];
      currentState := None;
    }

    /** `DFA.data_valid`: the checks on the inputs, aborting at the first failure. */
    static method DataValid(states: seq<string>, alphabet: seq<string>, startState: string,
                            acceptedStates: seq<string>) returns (r: Outcome<Failure>)
      ensures r == Validate(states, alphabet, startState, acceptedStates)
    {
      if !Uniqueness(alphabet) {
        return Fail(DuplicateSymbols);
      }
      if !Uniqueness(states) {
        return Fail(DuplicateStates);
      }
      if !Uniqueness(acceptedStates) {
        return Fail(DuplicateAcceptedStates);
      }
      if startState !in states {
        return Fail(UnknownStartState(startState));
      }
      for i := 0 to |acceptedStates|
        invariant forall j :: 0 <= j < i ==> acceptedStates[j] in states
      {
        if acceptedStates[i] !in states {
          return Fail(UnknownAcceptedState(acceptedStates[i]));
        }
      }
      return Pass;
    }

    /** `__add_transition`: parse and check one record, then register it.
        On any failure the table is left as it was. */
    method AddTransition(transition: string) returns (r: Outcome<Failure>)
      modifies this`transitionFunction
      ensures var spec := AddRecord(states, alphabet, old(transitionFunction), transition);
              && (spec.Success? ==> r == Pass && transitionFunction == spec.value)
              && (spec.Failure? ==> r == Fail(spec.error) && transitionFunction == old(transitionFunction))
    {
      if !HasTransitionShape(transition) {
        return Fail(MalformedTransition(transition));
      }
      var fields := Split(transition, '-');
      if |fields| != 3 {
        return Fail(WrongFieldCount(transition));
      }
      var state, symbol, nextState := fields[0], fields[1], fields[2];
      var valid := CheckTransition(states, alphabet, state, symbol, nextState);
      if valid.Fail? {
        return valid;
      }
      if (state, symbol) !in transitionFunction {
        transitionFunction := transitionFunction[(state, symbol) := nextState];
        return Pass;
      }
      if transitionFunction[(state, symbol)] == nextState {
        return Fail(DuplicateTransition(transition));
      }
      return Fail(ConflictingTransition(state, symbol, transitionFunction[(state, symbol)], nextState));
    }

    /** The loop of `__make_transition_function`: add the records left to
        right, and stop at the first one that fails. */
    method AddTransitions(records: seq<string>) returns (r: Outcome<Failure>)
      modifies this`transitionFunction
      ensures var spec := BuildTable(states, alphabet, old(transitionFunction), records);
              && (spec.Success? ==> r == Pass && transitionFunction == spec.value)
              && (spec.Failure? ==> r == Fail(spec.error))
    {
      ghost var spec := BuildTable(states, alphabet, transitionFunction, records);
      for i := 0 to |records|
        invariant spec == BuildTable(states, alphabet, transitionFunction, records[i..])
      {
        ghost var rest := records[i..];
        assert rest[0] == records[i] && rest[1..] == records[i + 1..];
        BuildTableStep(states, alphabet, transitionFunction, rest);
        r := AddTransition(records[i]);
        if r.Fail? {
          return;
        }
      }
      assert records[|records|..] == [];
      return Pass;
    }

    /** `__make_transition_function`: split the table on `,` and add the
        records into a table that starts empty. */
    method MakeTransitionFunction(table: string) returns (r: Outcome<Failure>)
      modifies this`transitionFunction
      ensures var spec := MakeTable(states, alphabet, table);
              && (spec.Success? ==> r == Pass && transitionFunction == spec.value)
              && (spec.Failure? ==> r == Fail(spec.error))
    {
      transitionFunction := map[];
      var transitions := Split(table, ',');
      if |transitions| == 0 {
        return Fail(EmptyTable);
      }
      r := AddTransitions(transitions);
    }

    /** `DFA(states, alphabet, transition_table, start_state, accepted_states)`:
        the constructor, which either yields a valid automaton or raises. */
    static method Build(states: seq<string>, alphabet: seq<string>, table: string,
                        startState: string, acceptedStates: seq<string>) returns (r: Result<Dfa, Failure>)
      ensures var spec := Construct(states, alphabet, table, startState, acceptedStates);
              && (r.Failure? <==> spec.Failure?)
              && (r.Failure? ==> r.error == spec.error)
              && (r.Success? ==>
                    && fresh(r.value)
                    && r.value.states == states && r.value.alphabet == alphabet
                    && r.value.startState == startState && r.value.acceptedStates == acceptedStates
                    && r.value.transitionFunction == spec.value
                    && r.value.currentState == None
                    && r.value.Valid())
    {
      var valid := DataValid(states, alphabet, startState, acceptedStates);
      if valid.Fail? {
        return Failure(valid.error);
      }
      var dfa := new Dfa(states, alphabet, startState, acceptedStates);
      var made := dfa.MakeTransitionFunction(table);
      if made.Fail? {
        return Failure(made.error);
      }
      return Success(dfa);
    }

    /** `__transition`: read one character, updating the current state. */
    method Transition(symbol: char) returns (status: DfaStatus)
      modifies this`currentState
      ensures (status, currentState)
              == Step(alphabet, transitionFunction, acceptedStates, old(currentState), symbol)
    {
      if [symbol] !in alphabet {
        return UnknownSymbolError;
      }
      currentState := Lookup(transitionFunction, currentState, [symbol]);
      if currentState.None? {
        return NoTransitions;
      }
      if currentState.value !in acceptedStates {
        return NotReachedFinalState;
      }
      return ReachedFinalState;
    }

    /** `check_ownership(w)`: reset to the start state, scan `w` until the end
        or the first unknown symbol or missing transition, and report whether
        the final status is `ReachedFinalState`. The result does not depend on
        the current state before the call, so repeated calls agree. */
    method CheckOwnership(w: string) returns (accepted: bool)
      modifies this`currentState
      ensures accepted == Accepts(alphabet, transitionFunction, acceptedStates, startState, w)
      ensures currentState == Run(alphabet, transitionFunction, acceptedStates, startState, w).1
      ensures Valid() ==>
                (accepted <==> var q := Delta(transitionFunction, startState, w);
                               q.Some? && q.value in acceptedStates)
    {
      currentState := Some(startState);
      var status := StatusOf(acceptedStates, startState);
      for i := 0 to |w|
        invariant !status.StopsScan()
        invariant Scan(alphabet, transitionFunction, acceptedStates, currentState, status, w[i..])
                  == Run(alphabet, transitionFunction, acceptedStates, startState, w)
      {
        assert w[i..][0] == w[i] && w[i..][1..] == w[i + 1..];
        status := Transition(w[i]);
        if status.StopsScan() {
          break;
        }
      }
      if Valid() {
        AcceptsIffDelta(alphabet, transitionFunction, acceptedStates, startState, w);
      }
      return status == ReachedFinalState;
    }
  }
}

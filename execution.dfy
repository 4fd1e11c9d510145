/** The run engine of dfa/core.py (`DFA.__transition`, `DFA.check_ownership`)
    as pure functions, and its meaning: a run accepts exactly when the
    extended transition function `Delta` takes the start state through the
    whole input to an accepted state. The imperative loop in module Automaton
    is proved equal to `Run`. */
module Execution {
  import opened Results
  import opened Construction

  /** `DFAStatus`. */
  datatype DfaStatus =
    | UnknownSymbolError
    | NoTransitions
    | NotReachedFinalState
    | ReachedFinalState
  {
    /** The two statuses on which `check_ownership` breaks out of its loop. */
    predicate StopsScan()
    {
      UnknownSymbolError? || NoTransitions?
    }
  }

  /** The status of resting in state `q`. */
  function StatusOf(accepted: seq<string>, q: string): DfaStatus
  {
    if q in accepted then ReachedFinalState else NotReachedFinalState
  }

  /** `tf.get((current, symbol), None)`; no key has a `None` state. */
  function Lookup(tf: Table, current: Option<string>, symbol: string): Option<string>
  {
    if current.Some? && (current.value, symbol) in tf then Some(tf[(current.value, symbol)]) else None
  }

  /** `__transition(c)`: the status it returns and the current state it leaves. */
  function Step(alphabet: seq<string>, tf: Table, accepted: seq<string>,
                current: Option<string>, c: char): (r: (DfaStatus, Option<string>))
    // a character outside the alphabet leaves the current state alone
    ensures r.0 == UnknownSymbolError <==> [c] !in alphabet
    ensures r.0 == UnknownSymbolError ==> r.1 == current
    // a missing transition clears the current state
    ensures r.0 == NoTransitions <==> [c] in alphabet && (current.None? || (current.value, [c]) !in tf)
    ensures r.0 == NoTransitions ==> r.1 == None
    // otherwise the transition is taken and the status tells whether it accepts
    ensures !r.0.StopsScan() ==>
              && current.Some? && (current.value, [c]) in tf
              && r.1 == Some(tf[(current.value, [c])])
              && r.0 == StatusOf(accepted, r.1.value)
  {
    if [c] !in alphabet then (UnknownSymbolError, current)
    else
      var next := Lookup(tf, current, [c]);
      if next.None? then (NoTransitions, None)
      else (StatusOf(accepted, next.value), next)
  }

  /** The `for` loop of `check_ownership` from a given current state and status. */
  function Scan(alphabet: seq<string>, tf: Table, accepted: seq<string>,
                current: Option<string>, status: DfaStatus, w: string): (r: (DfaStatus, Option<string>))
    // unless the scan stopped or read nothing, its status reports the state it ended in
    ensures || r.0.StopsScan()
            || (r == (status, current) && w == [])
            || (r.1.Some? && r.0 == StatusOf(accepted, r.1.value))
    // starting from a state, it loses its state exactly on a missing transition
    ensures current.Some? && !status.StopsScan() ==> (r.1 == None <==> r.0 == NoTransitions)
    decreases |w|
  {
    if w == [] then (status, current)
    else
      var (s, next) := Step(alphabet, tf, accepted, current, w[0]);
      if s.StopsScan() then (s, next) else Scan(alphabet, tf, accepted, next, s, w[1..])
  }

  /** `check_ownership(w)`: final status and final current state. */
  function Run(alphabet: seq<string>, tf: Table, accepted: seq<string>, start: string,
               w: string): (r: (DfaStatus, Option<string>))
    ensures !r.0.StopsScan() ==> r.1.Some? && r.0 == StatusOf(accepted, r.1.value)
    ensures r.1 == None <==> r.0 == NoTransitions
  {
    Scan(alphabet, tf, accepted, Some(start), StatusOf(accepted, start), w)
  }

  /** The boolean `check_ownership` returns. */
  predicate Accepts(alphabet: seq<string>, tf: Table, accepted: seq<string>, start: string, w: string): (r: bool)
    ensures r <==> var (status, q) := Run(alphabet, tf, accepted, start, w);
                   !status.StopsScan() && q.Some? && q.value in accepted
  {
    Run(alphabet, tf, accepted, start, w).0 == ReachedFinalState
  }

  /** Reference semantics: the extended transition function. */
  function Delta(tf: Table, q: string, w: string): Option<string>
    decreases |w|
  {
    if w == [] then Some(q)
    else if (q, [w[0]]) in tf then Delta(tf, tf[(q, [w[0]])], w[1..])
    else None
  }

  /** Every key of the table uses a declared symbol (implied by `TableWellFormed`). */
  ghost predicate SymbolsDeclared(alphabet: seq<string>, tf: Table)
  {
    forall k :: k in tf ==> k.1 in alphabet
  }

  ghost predicate AllDeclared(alphabet: seq<string>, w: string)
  {
    forall i :: 0 <= i < |w| ==> [w[i]] in alphabet
  }

  /** From a resting state, the scan accepts exactly when `Delta` reaches an
      accepted state, and when every character is declared it ends in the
      state `Delta` reaches (`None` when a transition is missing). */
  lemma {:induction false} ScanMatchesDelta(alphabet: seq<string>, tf: Table, accepted: seq<string>,
                                            q: string, w: string)
    requires SymbolsDeclared(alphabet, tf)
    ensures var r := Scan(alphabet, tf, accepted, Some(q), StatusOf(accepted, q), w);
            && (r.0 == ReachedFinalState <==> Delta(tf, q, w).Some? && Delta(tf, q, w).value in accepted)
            && (AllDeclared(alphabet, w) ==> r.1 == Delta(tf, q, w))
    decreases |w|
  {
    if w != [] {
      var c := w[0];
      if [c] in alphabet && (q, [c]) in tf {
        var q' := tf[(q, [c])];
        ScanMatchesDelta(alphabet, tf, accepted, q', w[1..]);
        if AllDeclared(alphabet, w) {
          forall i | 0 <= i < |w[1..]| ensures [w[1..][i]] in alphabet {
            assert w[1..][i] == w[i + 1];
          }
        }
      } else if [c] !in alphabet {
        assert (q, [c]) !in tf;
      }
    }
  }

  /** `check_ownership` returns true iff the pure run from the start state
      consumes every character through the table and ends in an accepted state. */
  lemma AcceptsIffDelta(alphabet: seq<string>, tf: Table, accepted: seq<string>, start: string, w: string)
    requires SymbolsDeclared(alphabet, tf)
    ensures Accepts(alphabet, tf, accepted, start, w)
            <==> Delta(tf, start, w).Some? && Delta(tf, start, w).value in accepted
    ensures AllDeclared(alphabet, w) ==> Run(alphabet, tf, accepted, start, w).1 == Delta(tf, start, w)
  {
    ScanMatchesDelta(alphabet, tf, accepted, start, w);
  }

  /** The empty input is accepted iff the start state is accepted. */
  lemma EmptyInput(alphabet: seq<string>, tf: Table, accepted: seq<string>, start: string)
    ensures Accepts(alphabet, tf, accepted, start, "") <==> start in accepted
    ensures Run(alphabet, tf, accepted, start, "").1 == Some(start)
  {
  }

  /** Once the scan has stopped, the characters after that point are ignored. */
  lemma {:induction false} ScanStopIgnoresRest(alphabet: seq<string>, tf: Table, accepted: seq<string>,
                                               current: Option<string>, status: DfaStatus, u: string, v: string)
    requires !status.StopsScan()
    requires Scan(alphabet, tf, accepted, current, status, u).0.StopsScan()
    ensures Scan(alphabet, tf, accepted, current, status, u + v)
            == Scan(alphabet, tf, accepted, current, status, u)
    decreases |u|
  {
    assert u != [];
    assert (u + v)[0] == u[0] && (u + v)[1..] == u[1..] + v;
    var (s, next) := Step(alphabet, tf, accepted, current, u[0]);
    if !s.StopsScan() {
      ScanStopIgnoresRest(alphabet, tf, accepted, next, s, u[1..], v);
    }
  }

  /** A run that stops on an unknown symbol or a missing transition gives the
      same result whatever follows. */
  lemma RunStopIgnoresRest(alphabet: seq<string>, tf: Table, accepted: seq<string>, start: string,
                           u: string, v: string)
    requires Run(alphabet, tf, accepted, start, u).0.StopsScan()
    ensures Run(alphabet, tf, accepted, start, u + v) == Run(alphabet, tf, accepted, start, u)
  {
    ScanStopIgnoresRest(alphabet, tf, accepted, Some(start), StatusOf(accepted, start), u, v);
  }

  /** An undeclared character anywhere in the input makes the scan stop. */
  lemma {:induction false} UndeclaredStopsScan(alphabet: seq<string>, tf: Table, accepted: seq<string>,
                                               current: Option<string>, status: DfaStatus, w: string, i: nat)
    requires i < |w| && [w[i]] !in alphabet
    ensures Scan(alphabet, tf, accepted, current, status, w).0.StopsScan()
    decreases |w|
  {
    var (s, next) := Step(alphabet, tf, accepted, current, w[0]);
    if !s.StopsScan() {
      assert i > 0 && w[1..][i - 1] == w[i];
      UndeclaredStopsScan(alphabet, tf, accepted, next, s, w[1..], i - 1);
    }
  }

  /** An input holding any character outside the alphabet is rejected. */
  lemma UndeclaredRejects(alphabet: seq<string>, tf: Table, accepted: seq<string>, start: string,
                          w: string, i: nat)
    requires i < |w| && [w[i]] !in alphabet
    ensures !Accepts(alphabet, tf, accepted, start, w)
  {
    UndeclaredStopsScan(alphabet, tf, accepted, Some(start), StatusOf(accepted, start), w, i);
  }

  /** Reading `u` from `q` without getting stuck, then an undeclared `c`:
      the status is `UnknownSymbolError` and the current state is where `u` led. */
  lemma {:induction false} ScanUnknownAfterPrefix(alphabet: seq<string>, tf: Table, accepted: seq<string>,
                                                  q: string, u: string, c: char, v: string)
    requires SymbolsDeclared(alphabet, tf)
    requires Delta(tf, q, u).Some? && [c] !in alphabet
    ensures Scan(alphabet, tf, accepted, Some(q), StatusOf(accepted, q), u + [c] + v)
            == (UnknownSymbolError, Delta(tf, q, u))
    decreases |u|
  {
    var w := u + [c] + v;
    if u == [] {
      assert w[0] == c;
    } else {
      assert w[0] == u[0] && w[1..] == u[1..] + [c] + v;
      assert [u[0]] in alphabet by {
        assert (q, [u[0]]) in tf;
      }
      ScanUnknownAfterPrefix(alphabet, tf, accepted, tf[(q, [u[0]])], u[1..], c, v);
    }
  }

  /** Presenting an undeclared symbol after any prefix that does not get stuck
      yields `UnknownSymbolError`, regardless of what came before or after. */
  lemma UnknownSymbolAfterPrefix(alphabet: seq<string>, tf: Table, accepted: seq<string>, start: string,
                                 u: string, c: char, v: string)
    requires SymbolsDeclared(alphabet, tf)
    requires Delta(tf, start, u).Some? && [c] !in alphabet
    ensures Run(alphabet, tf, accepted, start, u + [c] + v) == (UnknownSymbolError, Delta(tf, start, u))
    ensures !Accepts(alphabet, tf, accepted, start, u + [c] + v)
  {
    ScanUnknownAfterPrefix(alphabet, tf, accepted, start, u, c, v);
  }

  /** The one-character entries of the alphabet. */
  function OneCharSymbols(alphabet: seq<string>): (r: seq<string>)
    ensures forall a :: a in r ==> a in alphabet && |a| == 1
    ensures forall c: char :: [c] in r <==> [c] in alphabet
  {
    if alphabet == [] then []
    else if |alphabet[0]| == 1 then [alphabet[0]] + OneCharSymbols(alphabet[1..])
    else OneCharSymbols(alphabet[1..])
  }

  /** Alphabet entries longer (or shorter) than one character never match:
      dropping them changes no run. */
  lemma {:induction false} OnlyOneCharSymbolsMatter(alphabet: seq<string>, tf: Table, accepted: seq<string>,
                                                    current: Option<string>, status: DfaStatus, w: string)
    ensures Scan(alphabet, tf, accepted, current, status, w)
            == Scan(OneCharSymbols(alphabet), tf, accepted, current, status, w)
    decreases |w|
  {
    if w != [] {
      var (s, next) := Step(alphabet, tf, accepted, current, w[0]);
      OnlyOneCharSymbolsMatter(alphabet, tf, accepted, next, s, w[1..]);
    }
  }
}

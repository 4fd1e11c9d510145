/** Construction of a DFA (dfa/core.py, `uniqueness`, `DFA.data_valid` and the
    transition-table builder): the checks on the five construction inputs, in
    the order the source runs them, as pure specification functions. The
    imperative versions live in module Automaton and are proved equal to these. */
module Construction {
  import opened Results
  import opened Text

  /** The transition function: `(state, symbol) -> next state`. */
  type Table = map<(string, string), string>

  /** Every exception that aborts construction. Two of them are raised as a
      Python `Warning` (see `IsWarning`); the rest are `ValueError`s. */
  datatype Failure =
    | DuplicateSymbols
    | DuplicateStates
    | DuplicateAcceptedStates
    | UnknownStartState(state: string)
    | UnknownAcceptedState(state: string)
    | EmptyTable
    | MalformedTransition(record: string)
    | WrongFieldCount(record: string)
    | UnknownSourceState(state: string)
    | UnknownTargetState(state: string)
    | UnknownSymbol(symbol: string)
    | DuplicateTransition(record: string)
    | ConflictingTransition(state: string, symbol: string, existing: string, requested: string)
  {
    /** Raised as `Warning` rather than `ValueError`; it still aborts construction. */
    predicate IsWarning()
    {
      DuplicateAcceptedStates? || DuplicateTransition?
    }
  }

  // ---------------------------------------------------------------------------
  // uniqueness

  ghost predicate NoDuplicates<T>(c: seq<T>)
  {
    forall i, j :: 0 <= i < j < |c| ==> c[i] != c[j]
  }

  function Elements<T(==)>(c: seq<T>): set<T>
  {
    set x | x in c
  }

  /** `len(container) == len(list(set(container)))`: true exactly when no
      element occurs twice. */
  predicate Uniqueness<T(==)>(c: seq<T>): (r: bool)
    ensures r <==> NoDuplicates(c)
  {
    ElementsCount(c);
    |c| == |Elements(c)|
  }

  /** A non-empty list has no duplicates iff its head does not recur and its
      tail has none. */
  lemma NoDuplicatesCons<T>(c: seq<T>)
    requires c != []
    ensures NoDuplicates(c) <==> c[0] !in c[1..] && NoDuplicates(c[1..])
  {
    var rest := c[1..];
    if c[0] in rest {
      var k :| 0 <= k < |rest| && rest[k] == c[0];
      assert c[k + 1] == c[0];
    } else if NoDuplicates(rest) {
      forall i, j | 0 <= i < j < |c| ensures c[i] != c[j] {
        assert c[j] == rest[j - 1];
        if i > 0 {
          assert c[i] == rest[i - 1];
        }
      }
    }
    if NoDuplicates(c) {
      forall i, j | 0 <= i < j < |rest| ensures rest[i] != rest[j] {
        assert rest[i] == c[i + 1] && rest[j] == c[j + 1];
      }
    }
  }

  /** A list has at least as many positions as distinct elements, and as many
      exactly when no element occurs twice. */
  lemma {:induction false} ElementsCount<T>(c: seq<T>)
    ensures |Elements(c)| <= |c|
    ensures |Elements(c)| == |c| <==> NoDuplicates(c)
  {
    if c != [] {
      var rest := c[1..];
      ElementsCount(rest);
      NoDuplicatesCons(c);
      assert c == [c[0]] + rest;
      assert Elements(c) == {c[0]} + Elements(rest);
      if c[0] in rest {
        assert Elements(c) == Elements(rest);
      } else {
        assert |Elements(c)| == |Elements(rest)| + 1;
      }
    }
  }

  // ---------------------------------------------------------------------------
  // data_valid

  /** Index of the first element of `xs` that is not in `ys`, or `|xs|`. */
  function FirstMissing(xs: seq<string>, ys: seq<string>): (i: nat)
    ensures i <= |xs|
    ensures forall j :: 0 <= j < i ==> xs[j] in ys
    ensures i < |xs| ==> xs[i] !in ys
  {
    if xs == [] || xs[0] !in ys then 0 else 1 + FirstMissing(xs[1..], ys)
  }

  /** The checks of `DFA.data_valid`, in order; the first that fails aborts. */
  function Validate(states: seq<string>, alphabet: seq<string>, start: string,
                    accepted: seq<string>): (r: Outcome<Failure>)
    ensures r == Pass <==>
              && NoDuplicates(alphabet) && NoDuplicates(states) && NoDuplicates(accepted)
              && start in states && (forall s :: s in accepted ==> s in states)
    ensures r.Fail? ==> (r.error.IsWarning() <==> r.error == DuplicateAcceptedStates)
  {
    if !Uniqueness(alphabet) then Fail(DuplicateSymbols)
    else if !Uniqueness(states) then Fail(DuplicateStates)
    else if !Uniqueness(accepted) then Fail(DuplicateAcceptedStates)
    else if start !in states then Fail(UnknownStartState(start))
    else
      var i := FirstMissing(accepted, states);
      if i < |accepted| then Fail(UnknownAcceptedState(accepted[i])) else Pass
  }

  /** Which failure `Validate` reports, stated without the order of the code:
      each failure is reported exactly when its own check fails and every
      earlier check passes, and validation passes exactly when all hold. */
  lemma ValidateReports(states: seq<string>, alphabet: seq<string>, start: string,
                        accepted: seq<string>)
    ensures Validate(states, alphabet, start, accepted) == Fail(DuplicateSymbols)
            <==> !NoDuplicates(alphabet)
    ensures Validate(states, alphabet, start, accepted) == Fail(DuplicateStates)
            <==> NoDuplicates(alphabet) && !NoDuplicates(states)
    ensures Validate(states, alphabet, start, accepted) == Fail(DuplicateAcceptedStates)
            <==> NoDuplicates(alphabet) && NoDuplicates(states) && !NoDuplicates(accepted)
    ensures Validate(states, alphabet, start, accepted) == Fail(UnknownStartState(start))
            <==> NoDuplicates(alphabet) && NoDuplicates(states) && NoDuplicates(accepted)
                 && start !in states
    ensures forall s ::
              Validate(states, alphabet, start, accepted) == Fail(UnknownAcceptedState(s))
              <==> NoDuplicates(alphabet) && NoDuplicates(states) && NoDuplicates(accepted)
                   && start in states
                   && exists k :: 0 <= k < |accepted| && accepted[k] == s && s !in states
                                  && (forall j :: 0 <= j < k ==> accepted[j] in states)
    ensures Validate(states, alphabet, start, accepted) == Pass
            <==> NoDuplicates(alphabet) && NoDuplicates(states) && NoDuplicates(accepted)
                 && start in states && (forall s :: s in accepted ==> s in states)
  {
    var i := FirstMissing(accepted, states);
    forall k | 0 <= k < |accepted| && accepted[k] !in states
                && (forall j :: 0 <= j < k ==> accepted[j] in states)
      ensures i == k
    {
    }
    if i == |accepted| {
      assert forall s :: s in accepted ==> s in states;
    }
  }

  // ---------------------------------------------------------------------------
  // __add_transition: format check and unpacking

  /** `re.findall(r"\w*-\w*-\w*", record)` is non-empty: somewhere in the record
      two dashes enclose nothing but word characters. */
  predicate HasTransitionShape(record: string)
  {
    exists i, j :: 0 <= i < j < |record| && record[i] == '-' && record[j] == '-'
                   && AllWordChars(record[i + 1..j])
  }

  /** The format check, then `state, symbol, next_state = record.split("-")`. */
  function ParseRecord(record: string): (r: Result<(string, string, string), Failure>)
    // a parsed record is three dash-free fields that rebuild it
    ensures r.Success? ==>
              var (s, a, t) := r.value;
              s + "-" + a + "-" + t == record && '-' !in s && '-' !in a && '-' !in t
    // the failures are the format `ValueError`s of this record
    ensures r.Failure? ==> r.error == MalformedTransition(record) || r.error == WrongFieldCount(record)
  {
    if !HasTransitionShape(record) then Failure(MalformedTransition(record))
    else
      var fields := Split(record, '-');
      if |fields| != 3 then Failure(WrongFieldCount(record))
      else
        JoinThree(record);
        Success((fields[0], fields[1], fields[2]))
  }

  /** Where each character of `f0-f1-f2` comes from. */
  lemma ThreeFieldsAt(f0: string, f1: string, f2: string, p: int)
    requires 0 <= p < |f0 + "-" + f1 + "-" + f2|
    ensures p < |f0| ==> (f0 + "-" + f1 + "-" + f2)[p] == f0[p]
    ensures |f0| < p < |f0| + 1 + |f1| ==> (f0 + "-" + f1 + "-" + f2)[p] == f1[p - |f0| - 1]
    ensures |f0| + 1 + |f1| < p ==> (f0 + "-" + f1 + "-" + f2)[p] == f2[p - |f0| - |f1| - 2]
  {
  }

  /** For three dash-free fields, the regex finds a match exactly when the
      middle field is all word characters. */
  lemma ShapeOfThreeFields(f0: string, f1: string, f2: string)
    requires '-' !in f0 && '-' !in f1 && '-' !in f2
    ensures HasTransitionShape(f0 + "-" + f1 + "-" + f2) <==> AllWordChars(f1)
  {
    var r := f0 + "-" + f1 + "-" + f2;
    var i0, j0 := |f0|, |f0| + 1 + |f1|;
    assert r[i0] == '-' && r[j0] == '-';
    assert r[i0 + 1..j0] == f1;
    if HasTransitionShape(r) {
      var i, j :| 0 <= i < j < |r| && r[i] == '-' && r[j] == '-' && AllWordChars(r[i + 1..j]);
      ThreeFieldsAt(f0, f1, f2, i);
      ThreeFieldsAt(f0, f1, f2, j);
      assert i == i0 && j == j0;
    }
  }

  /** Three pieces of a split, joined back with the separator, give the string. */
  lemma JoinThree(record: string)
    requires |Split(record, '-')| == 3
    ensures var f := Split(record, '-'); record == f[0] + "-" + f[1] + "-" + f[2]
  {
    var f := Split(record, '-');
    assert f[1..][1..] == [f[2]];
    assert Join(f[1..], '-') == f[1] + "-" + f[2];
  }

  /** What the weak regex plus the unpacking accept: exactly three dash-separated
      fields whose middle one is all word characters; the fields joined with
      dashes give the record back. Empty fields are accepted. */
  lemma RecordAcceptedIff(record: string)
    ensures ParseRecord(record).Success?
            <==> |Split(record, '-')| == 3 && AllWordChars(Split(record, '-')[1])
    ensures ParseRecord(record).Success? ==>
              var (s, a, t) := ParseRecord(record).value;
              s + "-" + a + "-" + t == record && '-' !in s && '-' !in a && '-' !in t
  {
    var f := Split(record, '-');
    if |f| == 3 {
      JoinThree(record);
      ShapeOfThreeFields(f[0], f[1], f[2]);
    }
  }

  /** Round trip the other way: formatting three dash-free fields whose middle
      one is all word characters, then parsing, gives the fields back. */
  lemma ParseFormatted(s: string, a: string, t: string)
    requires '-' !in s && '-' !in a && '-' !in t && AllWordChars(a)
    ensures ParseRecord(s + "-" + a + "-" + t) == Success((s, a, t))
  {
    var record := s + "-" + a + "-" + t;
    assert [s, a, t][1..] == [a, t] && [a, t][1..] == [t];
    assert Join([a, t], '-') == a + "-" + t;
    assert record == Join([s, a, t], '-');
    SplitJoin([s, a, t], '-');
    ShapeOfThreeFields(s, a, t);
  }

  /** An empty record has no dashes, so it fails the format check. */
  lemma EmptyRecordIsMalformed()
    ensures ParseRecord("") == Failure(MalformedTransition(""))
  {
  }

  // ---------------------------------------------------------------------------
  // __transition_valid

  /** Source state, then destination state, then symbol must be declared. */
  function CheckTransition(states: seq<string>, alphabet: seq<string>,
                           state: string, symbol: string, nextState: string): (r: Outcome<Failure>)
    ensures r == Pass <==> state in states && nextState in states && symbol in alphabet
    // checked in the order source, destination, symbol
    ensures r == Fail(UnknownSourceState(state)) <==> state !in states
    ensures r == Fail(UnknownTargetState(nextState)) <==> state in states && nextState !in states
    ensures r == Fail(UnknownSymbol(symbol)) <==>
              state in states && nextState in states && symbol !in alphabet
    ensures r.Fail? ==> !r.error.IsWarning() && !r.error.ConflictingTransition?
  {
    if state !in states then Fail(UnknownSourceState(state))
    else if nextState !in states then Fail(UnknownTargetState(nextState))
    else if symbol !in alphabet then Fail(UnknownSymbol(symbol))
    else Pass
  }

  // ---------------------------------------------------------------------------
  // __add_transition

  /** Parse one record, check its fields, and register it in `tf`. */
  function AddRecord(states: seq<string>, alphabet: seq<string>, tf: Table,
                     record: string): (r: Result<Table, Failure>)
    ensures r.Success? <==>
              && ParseRecord(record).Success?
              && var (s, a, t) := ParseRecord(record).value;
                 CheckTransition(states, alphabet, s, a, t) == Pass && (s, a) !in tf
    // an unseen key: exactly that entry is added, nothing else changes
    ensures r.Success? ==>
              var (s, a, t) := ParseRecord(record).value;
              && r.value.Keys == tf.Keys + {(s, a)}
              && r.value[(s, a)] == t
              && (forall k :: k in tf ==> r.value[k] == tf[k])
    // a seen key with the same target: the `Warning`
    ensures r == Failure(DuplicateTransition(record)) <==>
              && ParseRecord(record).Success?
              && var (s, a, t) := ParseRecord(record).value;
                 CheckTransition(states, alphabet, s, a, t) == Pass
                 && (s, a) in tf && tf[(s, a)] == t
    // a seen key with a different target: the `ValueError`
    ensures r.Failure? && r.error.ConflictingTransition? <==>
              && ParseRecord(record).Success?
              && var (s, a, t) := ParseRecord(record).value;
                 CheckTransition(states, alphabet, s, a, t) == Pass
                 && (s, a) in tf && tf[(s, a)] != t
    // a malformed record or an undeclared field propagates that `ValueError`
    ensures ParseRecord(record).Failure? ==> r == Failure(ParseRecord(record).error)
    ensures ParseRecord(record).Success? ==>
              var (s, a, t) := ParseRecord(record).value;
              CheckTransition(states, alphabet, s, a, t).Fail? ==>
                r == Failure(CheckTransition(states, alphabet, s, a, t).error)
    ensures r.Failure? ==> r.error != EmptyTable
  {
    match ParseRecord(record)
    case Failure(e) => Failure(e)
    case Success((state, symbol, nextState)) =>
      match CheckTransition(states, alphabet, state, symbol, nextState)
      case Fail(e) => Failure(e)
      case Pass =>
        if (state, symbol) !in tf then Success(tf[(state, symbol) := nextState])
        else if tf[(state, symbol)] == nextState then Failure(DuplicateTransition(record))
        else Failure(ConflictingTransition(state, symbol, tf[(state, symbol)], nextState))
  }

  // ---------------------------------------------------------------------------
  // __make_transition_function

  /** Add the records left to right; the first failing record aborts. */
  function BuildTable(states: seq<string>, alphabet: seq<string>, tf: Table,
                      records: seq<string>): (r: Result<Table, Failure>)
    // the starting entries are kept, and a well-formed table stays well formed
    ensures r.Success? ==> forall k :: k in tf ==> k in r.value && r.value[k] == tf[k]
    ensures r.Success? && TableWellFormed(states, alphabet, tf) ==>
              TableWellFormed(states, alphabet, r.value)
    // no record can raise the "not a single transition" error
    ensures r != Failure(EmptyTable)
    decreases |records|
  {
    if records == [] then Success(tf)
    else
      match AddRecord(states, alphabet, tf, records[0])
      case Failure(e) => Failure(e)
      case Success(tf') => BuildTable(states, alphabet, tf', records[1..])
  }

  /** One step of `BuildTable`: the first record either aborts the build
      with its own error or is added before the rest. */
  lemma BuildTableStep(states: seq<string>, alphabet: seq<string>, tf: Table, records: seq<string>)
    requires records != []
    ensures var added := AddRecord(states, alphabet, tf, records[0]);
            && (added.Failure? ==> BuildTable(states, alphabet, tf, records) == Failure(added.error))
            && (added.Success? ==>
                  BuildTable(states, alphabet, tf, records) == BuildTable(states, alphabet, added.value, records[1..]))
  {
  }

  /** Split the table on `,`, reject an empty list (which `split` never
      produces), and build the dictionary from an empty one. */
  function MakeTable(states: seq<string>, alphabet: seq<string>, table: string): (r: Result<Table, Failure>)
    ensures r.Success? ==> TableWellFormed(states, alphabet, r.value)
    // the empty-list branch is dead: the error is never reported
    ensures r != Failure(EmptyTable)
  {
    var records := Split(table, ',');
    if |records| == 0 then Failure(EmptyTable)
    else BuildTable(states, alphabet, map[], records)
  }

  /** The whole constructor: `data_valid`, then the transition table. */
  function Construct(states: seq<string>, alphabet: seq<string>, table: string,
                     start: string, accepted: seq<string>): (r: Result<Table, Failure>)
    // after a successful construction every invariant of a DFA holds
    ensures r.Success? ==>
              && NoDuplicates(alphabet) && NoDuplicates(states) && NoDuplicates(accepted)
              && start in states && (forall s :: s in accepted ==> s in states)
              && TableWellFormed(states, alphabet, r.value)
    // validation failures come first, then table failures
    ensures Validate(states, alphabet, start, accepted).Fail? ==>
              r == Failure(Validate(states, alphabet, start, accepted).error)
    ensures Validate(states, alphabet, start, accepted).Pass? ==> r == MakeTable(states, alphabet, table)
  {
    match Validate(states, alphabet, start, accepted)
    case Fail(e) => Failure(e)
    case Pass => MakeTable(states, alphabet, table)
  }

  /** Every entry has a declared source, symbol and target. */
  ghost predicate TableWellFormed(states: seq<string>, alphabet: seq<string>, tf: Table)
  {
    forall k :: k in tf ==> k.0 in states && k.1 in alphabet && tf[k] in states
  }

  /** The entry a record contributes, if it parses. */
  function RecordEntry(record: string): Option<((string, string), string)>
  {
    match ParseRecord(record)
    case Failure(_) => None
    case Success((s, a, t)) => Some(((s, a), t))
  }

  /** On success the table holds the starting entries, one entry per record
      (every record parses and its key maps to its target), and nothing else. */
  lemma {:induction false} BuildTableContents(states: seq<string>, alphabet: seq<string>,
                                              tf: Table, records: seq<string>)
    requires BuildTable(states, alphabet, tf, records).Success?
    ensures var m := BuildTable(states, alphabet, tf, records).value;
            && (forall k :: k in tf ==> k in m && m[k] == tf[k])
            && (forall i :: 0 <= i < |records| ==>
                  RecordEntry(records[i]).Some?
                  && RecordEntry(records[i]).value.0 in m
                  && m[RecordEntry(records[i]).value.0] == RecordEntry(records[i]).value.1)
            && (forall k :: k in m ==>
                  k in tf || exists i :: 0 <= i < |records| && RecordEntry(records[i]) == Some((k, m[k])))
    decreases |records|
  {
    if records != [] {
      var tf' := AddRecord(states, alphabet, tf, records[0]).value;
      var rest := records[1..];
      BuildTableContents(states, alphabet, tf', rest);
      var m := BuildTable(states, alphabet, tf, records).value;
      assert m == BuildTable(states, alphabet, tf', rest).value;
      forall i | 0 <= i < |records|
        ensures RecordEntry(records[i]).Some?
                && RecordEntry(records[i]).value.0 in m
                && m[RecordEntry(records[i]).value.0] == RecordEntry(records[i]).value.1
      {
        if i > 0 {
          assert records[i] == rest[i - 1];
        }
      }
      forall k | k in m
        ensures k in tf || exists i :: 0 <= i < |records| && RecordEntry(records[i]) == Some((k, m[k]))
      {
        if k !in tf {
          if k in tf' {
            assert RecordEntry(records[0]) == Some((k, m[k]));
          } else {
            var i :| 0 <= i < |rest| && RecordEntry(rest[i]) == Some((k, m[k]));
            assert records[i + 1] == rest[i];
          }
        }
      }
    }
  }

  /** Dropping the head of a prefix of `s` gives a prefix of `s`'s tail. */
  lemma PrefixTail<T>(s: seq<T>, i: nat)
    requires i < |s|
    ensures s[..i + 1][0] == s[0] && s[..i + 1][1..] == s[1..][..i]
  {
  }

  /** On failure, some record `i` is the first to fail: the records before it
      all went in, and adding record `i` to that table raises the error. */
  lemma {:induction false} BuildTableFirstFailure(states: seq<string>, alphabet: seq<string>,
                                                  tf: Table, records: seq<string>)
    requires BuildTable(states, alphabet, tf, records).Failure?
    ensures exists i :: 0 <= i < |records|
              && BuildTable(states, alphabet, tf, records[..i]).Success?
              && AddRecord(states, alphabet, BuildTable(states, alphabet, tf, records[..i]).value, records[i])
                 == Failure(BuildTable(states, alphabet, tf, records).error)
    decreases |records|
  {
    var e := BuildTable(states, alphabet, tf, records).error;
    assert records[..0] == [];
    BuildTableStep(states, alphabet, tf, records);
    match AddRecord(states, alphabet, tf, records[0])
    case Failure(_) =>
      assert BuildTable(states, alphabet, tf, records[..0]) == Success(tf);
    case Success(tf') =>
      var rest := records[1..];
      BuildTableFirstFailure(states, alphabet, tf', rest);
      var i :| 0 <= i < |rest|
               && BuildTable(states, alphabet, tf', rest[..i]).Success?
               && AddRecord(states, alphabet, BuildTable(states, alphabet, tf', rest[..i]).value, rest[i])
                  == Failure(e);
      var prefix := records[..i + 1];
      PrefixTail(records, i);
      BuildTableStep(states, alphabet, tf, prefix);
      assert records[i + 1] == rest[i];
      assert BuildTable(states, alphabet, tf, records[..i + 1]) == BuildTable(states, alphabet, tf', rest[..i]);
  }

  /** An empty table string is the single record `""`, which fails the format check. */
  lemma EmptyTableIsMalformed(states: seq<string>, alphabet: seq<string>)
    ensures MakeTable(states, alphabet, "") == Failure(MalformedTransition(""))
  {
    assert Split("", ',') == [""];
    EmptyRecordIsMalformed();
  }
}

/** Example automata: construction outcomes and runs, stated for any state
    names free of `-` and `,` and any distinct word-character symbols. */
module Scenarios {
  import opened Results
  import opened Text
  import opened Construction
  import opened Execution

  /** A name that can stand in a transition table as a field. */
  predicate Plain(x: string)
  {
    '-' !in x && ',' !in x
  }

  /** The record `state-symbol-next`. */
  function Record(state: string, symbol: char, next: string): string
  {
    state + "-" + [symbol] + "-" + next
  }

  /** Parsing a record built from plain names and a word character. */
  lemma ParseRecordOf(state: string, symbol: char, next: string)
    requires Plain(state) && Plain(next) && IsWordChar(symbol)
    ensures ParseRecord(Record(state, symbol, next)) == Success((state, [symbol], next))
    ensures ',' !in Record(state, symbol, next)
  {
    assert AllWordChars([symbol]);
    ParseFormatted(state, [symbol], next);
    var r := Record(state, symbol, next);
    forall i | 0 <= i < |r| ensures r[i] != ',' {
      if i < |state| {
        assert r[i] == state[i];
      } else if i >= |state| + 3 {
        assert r[i] == next[i - |state| - 3];
      }
    }
  }

  /** Splitting a two-record table on `,`. */
  lemma SplitTwoRecords(r1: string, r2: string)
    requires ',' !in r1 && ',' !in r2
    ensures Split(r1 + "," + r2, ',') == [r1, r2]
  {
    assert r1 + "," + r2 == Join([r1, r2], ',');
    SplitJoin([r1, r2], ',');
  }

  /** Two distinct values pass the uniqueness check, one value always does. */
  lemma SmallListsUnique(x: string, y: string)
    ensures Uniqueness([x])
    ensures x != y ==> Uniqueness([x, y])
  {
  }

  /** states [q0, q1], alphabet [x, y], transitions "q0-x-q1,q1-y-q0",
      start q0, accepted [q1]: the table holds exactly the two records. */
  lemma TwoStateTable(q0: string, q1: string, x: char, y: char)
    requires Plain(q0) && Plain(q1) && q0 != q1
    requires IsWordChar(x) && IsWordChar(y) && x != y
    ensures Construct([q0, q1], [[x], [y]], Record(q0, x, q1) + "," + Record(q1, y, q0), q0, [q1])
            == Success(map[(q0, [x]) := q1, (q1, [y]) := q0])
  {
    var states, alphabet := [q0, q1], [[x], [y]];
    SmallListsUnique(q0, q1);
    SmallListsUnique([x], [y]);
    SmallListsUnique(q1, q1);
    assert Validate(states, alphabet, q0, [q1]) == Pass;
    var r1, r2 := Record(q0, x, q1), Record(q1, y, q0);
    ParseRecordOf(q0, x, q1);
    ParseRecordOf(q1, y, q0);
    SplitTwoRecords(r1, r2);
    var tf1 := map[(q0, [x]) := q1];
    assert AddRecord(states, alphabet, map[], r1) == Success(tf1);
    var tf2 := tf1[(q1, [y]) := q0];
    assert AddRecord(states, alphabet, tf1, r2) == Success(tf2);
    assert BuildTable(states, alphabet, tf1, [r2]) == Success(tf2);
    assert MakeTable(states, alphabet, r1 + "," + r2) == BuildTable(states, alphabet, map[], [r1, r2]);
  }

  /** Runs of that automaton: "x" and "xyx" are accepted, "xy" ends in q0 and
      is rejected, a character outside the alphabet stops on an unknown symbol,
      and "y" stops on a missing transition. */
  lemma TwoStateRuns(q0: string, q1: string, x: char, y: char, z: char)
    requires q0 != q1 && x != y && z != x && z != y
    ensures var tf := map[(q0, [x]) := q1, (q1, [y]) := q0];
            && Accepts([[x], [y]], tf, [q1], q0, [x])
            && Run([[x], [y]], tf, [q1], q0, [x, y]) == (NotReachedFinalState, Some(q0))
            && Accepts([[x], [y]], tf, [q1], q0, [x, y, x])
            && Run([[x], [y]], tf, [q1], q0, [z]) == (UnknownSymbolError, Some(q0))
            && Run([[x], [y]], tf, [q1], q0, [y]) == (NoTransitions, None)
  {
    var alphabet, tf, accepted := [[x], [y]], map[(q0, [x]) := q1, (q1, [y]) := q0], [q1];
    assert [x] != [y] && [z] != [x] && [z] != [y];
    assert Step(alphabet, tf, accepted, Some(q0), x) == (ReachedFinalState, Some(q1));
    assert Step(alphabet, tf, accepted, Some(q1), y) == (NotReachedFinalState, Some(q0));
    assert Scan(alphabet, tf, accepted, Some(q1), ReachedFinalState, [x][1..]) == (ReachedFinalState, Some(q1));
    assert Scan(alphabet, tf, accepted, Some(q0), NotReachedFinalState, [x, y][1..][1..])
           == (NotReachedFinalState, Some(q0));
    assert Scan(alphabet, tf, accepted, Some(q1), ReachedFinalState, [x, y][1..])
           == (NotReachedFinalState, Some(q0));
    assert Scan(alphabet, tf, accepted, Some(q1), ReachedFinalState, [x, y, x][1..][1..][1..])
           == (ReachedFinalState, Some(q1));
    assert Scan(alphabet, tf, accepted, Some(q0), NotReachedFinalState, [x, y, x][1..][1..])
           == (ReachedFinalState, Some(q1));
    assert Scan(alphabet, tf, accepted, Some(q1), ReachedFinalState, [x, y, x][1..])
           == (ReachedFinalState, Some(q1));
  }

  /** Following a self-loop on `x` any number of times stays in `q`. */
  lemma {:induction false} DeltaSelfLoop(q: string, x: char, w: string)
    requires forall i :: 0 <= i < |w| ==> w[i] == x
    ensures Delta(map[(q, [x]) := q], q, w) == Some(q)
    decreases |w|
  {
    if w != [] {
      DeltaSelfLoop(q, x, w[1..]);
    }
  }

  /** states [q], alphabet [x], transitions "q-x-q", start q, accepted [q]:
      the table is the single self-loop. */
  lemma SelfLoopTable(q: string, x: char)
    requires Plain(q) && IsWordChar(x)
    ensures Construct([q], [[x]], Record(q, x, q), q, [q]) == Success(map[(q, [x]) := q])
  {
    SmallListsUnique(q, q);
    SmallListsUnique([x], [x]);
    ParseRecordOf(q, x, q);
    SplitWithoutSeparator(Record(q, x, q), ',');
    assert MakeTable([q], [[x]], Record(q, x, q)) == BuildTable([q], [[x]], map[], [Record(q, x, q)]);
    assert AddRecord([q], [[x]], map[], Record(q, x, q)) == Success(map[(q, [x]) := q]);
    assert BuildTable([q], [[x]], map[], [Record(q, x, q)]) == Success(map[(q, [x]) := q]);
  }

  /** On that automaton the empty string, "xxxx", and every string of x's are accepted. */
  lemma SelfLoopRuns(q: string, x: char)
    ensures Accepts([[x]], map[(q, [x]) := q], [q], q, "")
    ensures forall w :: (forall i :: 0 <= i < |w| ==> w[i] == x) ==> Accepts([[x]], map[(q, [x]) := q], [q], q, w)
    ensures Accepts([[x]], map[(q, [x]) := q], [q], q, [x, x, x, x])
  {
    forall w | forall i :: 0 <= i < |w| ==> w[i] == x
      ensures Accepts([[x]], map[(q, [x]) := q], [q], q, w)
    {
      DeltaSelfLoop(q, x, w);
      AcceptsIffDelta([[x]], map[(q, [x]) := q], [q], q, w);
    }
    var w4 := [x, x, x, x];
    assert forall i :: 0 <= i < |w4| ==> w4[i] == x;
  }

  /** The same key with two different targets aborts with the `ValueError`. */
  lemma ConflictingTargets(q0: string, q1: string, q2: string, x: char)
    requires Plain(q0) && Plain(q1) && Plain(q2) && q0 != q1 && q1 != q2 && q0 != q2
    requires IsWordChar(x)
    ensures Construct([q0, q1, q2], [[x]], Record(q0, x, q1) + "," + Record(q0, x, q2), q0, [q1])
            == Failure(ConflictingTransition(q0, [x], q1, q2))
  {
    var states := [q0, q1, q2];
    SmallListsUnique([x], [x]);
    SmallListsUnique(q1, q1);
    assert Validate(states, [[x]], q0, [q1]) == Pass;
    var r1, r2 := Record(q0, x, q1), Record(q0, x, q2);
    ParseRecordOf(q0, x, q1);
    ParseRecordOf(q0, x, q2);
    SplitTwoRecords(r1, r2);
    var tf1 := map[(q0, [x]) := q1];
    assert AddRecord(states, [[x]], map[], r1) == Success(tf1);
    assert AddRecord(states, [[x]], tf1, r2) == Failure(ConflictingTransition(q0, [x], q1, q2));
    assert BuildTable(states, [[x]], tf1, [r2]) == Failure(ConflictingTransition(q0, [x], q1, q2));
    assert MakeTable(states, [[x]], r1 + "," + r2) == BuildTable(states, [[x]], map[], [r1, r2]);
  }

  /** The same record twice raises the `Warning`, which aborts construction too. */
  lemma RepeatedRecordAborts(q0: string, q1: string, x: char)
    requires Plain(q0) && Plain(q1) && q0 != q1 && IsWordChar(x)
    ensures Construct([q0, q1], [[x]], Record(q0, x, q1) + "," + Record(q0, x, q1), q0, [q1])
            == Failure(DuplicateTransition(Record(q0, x, q1)))
    ensures DuplicateTransition(Record(q0, x, q1)).IsWarning()
  {
    var states := [q0, q1];
    SmallListsUnique(q0, q1);
    SmallListsUnique([x], [x]);
    SmallListsUnique(q1, q1);
    assert Validate(states, [[x]], q0, [q1]) == Pass;
    var r := Record(q0, x, q1);
    ParseRecordOf(q0, x, q1);
    SplitTwoRecords(r, r);
    var tf1 := map[(q0, [x]) := q1];
    assert AddRecord(states, [[x]], map[], r) == Success(tf1);
    assert AddRecord(states, [[x]], tf1, r) == Failure(DuplicateTransition(r));
    assert BuildTable(states, [[x]], tf1, [r]) == Failure(DuplicateTransition(r));
    assert MakeTable(states, [[x]], r + "," + r) == BuildTable(states, [[x]], map[], [r, r]);
  }
}

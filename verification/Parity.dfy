/**
 The parity gate: results of several targets are compared with a reference target, cell by cell,
 and every difference has to be on the allow-list, which may hold nothing else.
 */
module Parity {
  import opened Machine

  datatype Key = Key(caseId: string, api: string)
  datatype Cell = Cell(target: string, key: Key)

  /** The fingerprint is the recorded one, or the one computed from the outcome. */
  datatype Execution = Execution(cell: Cell, outcome: string, fingerprint: string)

  datatype Difference = Difference(cell: Cell, referenceOutcome: string, candidateOutcome: string,
                                   referenceFingerprint: Option<string>, candidateFingerprint: string)

  datatype ContractError = DuplicateExecution | NoReference | IncompleteReference

  datatype Status = Failed | ReferenceOnly | Passed

  type ByTarget = map<string, map<Key, Execution>>

  // ---------------------------------------------------------------- collecting the executions

  function Flatten(results: seq<seq<Execution>>): seq<Execution> {
    if results == [] then [] else Flatten(results[..|results| - 1]) + results[|results| - 1]
  }

  /** Files one after the other. */
  lemma {:induction false} FlattenJoins(results: seq<seq<Execution>>, more: seq<seq<Execution>>)
    ensures Flatten(results + more) == Flatten(results) + Flatten(more)
    ensures |results| == 1 ==> Flatten(results) == results[0]
  {
    if more == [] {
      assert results + more == results;
    } else {
      var front := more[..|more| - 1];
      assert (results + more)[..|results + more| - 1] == results + front;
      FlattenJoins(results, front);
    }
    if |results| == 1 {
      assert results[..0] == [];
    }
  }

  predicate Repeats(executions: seq<Execution>, n: nat)
    requires n <= |executions|
  {
    exists i, j | 0 <= i < j < n :: executions[i].cell == executions[j].cell
  }

  predicate Recorded(grouped: ByTarget, cell: Cell) {
    cell.target in grouped && cell.key in grouped[cell.target]
  }

  predicate Occurs(executions: seq<Execution>, n: nat, cell: Cell)
    requires n <= |executions|
  {
    exists i | 0 <= i < n :: executions[i].cell == cell
  }

  predicate Stored(grouped: ByTarget, e: Execution) {
    Recorded(grouped, e.cell) && grouped[e.cell.target][e.cell.key] == e
  }

  /** The first `n` executions are filed under their target and key, and nothing else is. */
  ghost predicate Groups(executions: seq<Execution>, n: nat, grouped: ByTarget)
    requires n <= |executions|
  {
    && (forall i | 0 <= i < n :: Stored(grouped, executions[i]))
    && (forall cell | Recorded(grouped, cell) :: Occurs(executions, n, cell))
    && (forall target | target in grouped :: exists key :: Recorded(grouped, Cell(target, key)))
  }

  method Collect(results: seq<seq<Execution>>) returns (executions: seq<Execution>)
    ensures executions == Flatten(results)
  {
    executions := [];
    for i := 0 to |results|
      invariant executions == Flatten(results[..i])
    {
      executions := executions + results[i];
      assert results[..i + 1][..i] == results[..i];
    }
    assert results[..|results|] == results;
  }

  /** Filing one more execution. */
  function Filed(grouped: ByTarget, e: Execution): ByTarget {
    grouped[e.cell.target := (if e.cell.target in grouped then grouped[e.cell.target] else map[])[e.cell.key := e]]
  }

  lemma FiledAt(grouped: ByTarget, e: Execution, cell: Cell)
    ensures Recorded(Filed(grouped, e), cell) <==> cell == e.cell || Recorded(grouped, cell)
    ensures Recorded(grouped, cell) && cell != e.cell ==>
              Filed(grouped, e)[cell.target][cell.key] == grouped[cell.target][cell.key]
  {
  }

  lemma GroupOne(executions: seq<Execution>, n: nat, before: ByTarget)
    requires n < |executions| && Groups(executions, n, before) && !Recorded(before, executions[n].cell)
    ensures Groups(executions, n + 1, Filed(before, executions[n]))
  {
    var e := executions[n];
    var after := Filed(before, e);
    forall i | 0 <= i < n + 1 ensures Stored(after, executions[i]) {
      assert i < n ==> Stored(before, executions[i]);
      FiledAt(before, e, executions[i].cell);
    }
    forall cell | Recorded(after, cell) ensures Occurs(executions, n + 1, cell) {
      FiledAt(before, e, cell);
      if cell != e.cell {
        assert Occurs(executions, n, cell);
      }
    }
    forall target | target in after ensures exists key :: Recorded(after, Cell(target, key)) {
      if target == e.cell.target {
        assert Recorded(after, Cell(target, e.cell.key));
      } else {
        var key :| Recorded(before, Cell(target, key));
        FiledAt(before, e, Cell(target, key));
      }
    }
  }

  lemma StillDistinct(executions: seq<Execution>, n: nat, before: ByTarget)
    requires n < |executions| && Groups(executions, n, before) && !Repeats(executions, n)
    ensures Repeats(executions, n + 1) <==> Recorded(before, executions[n].cell)
  {
    var cell := executions[n].cell;
    if Recorded(before, cell) {
      assert Occurs(executions, n, cell);
    } else {
      forall j | 0 <= j < n ensures executions[j].cell != cell {
        assert Stored(before, executions[j]);
      }
    }
  }

  method Group(executions: seq<Execution>) returns (r: Result<ByTarget, ContractError>)
    ensures r.Err? <==> Repeats(executions, |executions|)
    ensures r.Err? ==> r.error == DuplicateExecution
    ensures r.Ok? ==> Groups(executions, |executions|, r.value)
  {
    var grouped: ByTarget := map[];
    for i := 0 to |executions|
      invariant Groups(executions, i, grouped) && !Repeats(executions, i)
    {
      var e := executions[i];
      StillDistinct(executions, i, grouped);
      if Recorded(grouped, e.cell) {
        return Err(DuplicateExecution);
      }
      GroupOne(executions, i, grouped);
      grouped := Filed(grouped, e);
    }
    return Ok(grouped);
  }

  // ---------------------------------------------------------------- cells that differ

  /** The target misses the cell, or its outcome or fingerprint is not the reference's. */
  predicate Differs(grouped: ByTarget, reference: string, cell: Cell)
    requires Recorded(grouped, Cell(reference, cell.key))
  {
    || !Recorded(grouped, cell)
    || grouped[cell.target][cell.key].outcome != grouped[reference][cell.key].outcome
    || grouped[cell.target][cell.key].fingerprint != grouped[reference][cell.key].fingerprint
  }

  /** The allow-list records exactly this difference. A missing execution is never excused. */
  predicate Excused(grouped: ByTarget, allowed: map<Cell, Difference>, reference: string, cell: Cell)
    requires Recorded(grouped, Cell(reference, cell.key))
  {
    && cell in allowed && Recorded(grouped, cell)
    && var expected, actual, entry := grouped[reference][cell.key], grouped[cell.target][cell.key], allowed[cell];
       && entry.referenceOutcome == expected.outcome
       && entry.candidateOutcome == actual.outcome
       && (entry.referenceFingerprint.Some? ==> entry.referenceFingerprint.value == expected.fingerprint)
       && entry.candidateFingerprint == actual.fingerprint
  }

  predicate Complete(grouped: ByTarget, reference: string, expected: set<Key>) {
    reference in grouped && grouped[reference].Keys == expected
  }

  /** The cells of some targets and keys that differ from the reference. */
  function DifferencesOf(grouped: ByTarget, reference: string, keys: set<Key>, targets: set<string>): set<Cell>
    requires reference in grouped && keys <= grouped[reference].Keys
  {
    set target, key | target in targets && key in keys && target != reference
                      && Differs(grouped, reference, Cell(target, key)) :: Cell(target, key)
  }

  function ExcusedAmong(grouped: ByTarget, allowed: map<Cell, Difference>, reference: string, cells: set<Cell>)
    : set<Cell>
  {
    set cell | && cell in cells && Recorded(grouped, Cell(reference, cell.key))
               && Excused(grouped, allowed, reference, cell)
  }

  /** Later entries replace earlier ones, as in a dictionary comprehension. */
  function AllowList(differences: seq<Difference>): map<Cell, Difference> {
    if differences == [] then map[]
    else
      var last := differences[|differences| - 1];
      AllowList(differences[..|differences| - 1])[last.cell := last]
  }

  /** The allow-list entries the run is answerable for. */
  function Accountable(grouped: ByTarget, allowed: map<Cell, Difference>, requireTargets: bool): set<Cell> {
    set cell | cell in allowed && (cell.target in grouped || requireTargets)
  }

  /** What a passing comparison means. */
  predicate Clean(grouped: ByTarget, allowed: map<Cell, Difference>, reference: string, expected: set<Key>,
                  required: seq<string>, requireTargets: bool)
    requires Complete(grouped, reference, expected)
  {
    && (forall target | target in required :: target in grouped)
    && DifferencesOf(grouped, reference, expected, grouped.Keys) == Accountable(grouped, allowed, requireTargets)
    && forall cell | cell in DifferencesOf(grouped, reference, expected, grouped.Keys) ::
         Excused(grouped, allowed, reference, cell)
  }

  // ---------------------------------------------------------------- the comparison

  method CompareTarget(grouped: ByTarget, allowed: map<Cell, Difference>, reference: string, expected: set<Key>,
                       target: string) returns (failed: bool, observed: set<Cell>)
    requires Complete(grouped, reference, expected) && target in grouped && target != reference
    ensures observed == ExcusedAmong(grouped, allowed, reference, DifferencesOf(grouped, reference, expected, {target}))
    ensures !failed <==> observed == DifferencesOf(grouped, reference, expected, {target})
  {
    failed, observed := false, {};
    var rest := expected;
    ghost var done: set<Key> := {};
    while rest != {}
      invariant rest + done == expected && rest !! done
      invariant observed == ExcusedAmong(grouped, allowed, reference, DifferencesOf(grouped, reference, done, {target}))
      invariant !failed <==> observed == DifferencesOf(grouped, reference, done, {target})
      decreases rest
    {
      var key :| key in rest;
      rest := rest - {key};
      var cell := Cell(target, key);
      OneMoreKey(grouped, allowed, reference, done, target, key);
      if Differs(grouped, reference, cell) {
        if Excused(grouped, allowed, reference, cell) {
          observed := observed + {cell};
        } else {
          failed := true;
        }
      }
      done := done + {key};
    }
    assert done == expected;
  }

  lemma OneMoreKey(grouped: ByTarget, allowed: map<Cell, Difference>, reference: string, done: set<Key>,
                   target: string, key: Key)
    requires reference in grouped && done + {key} <= grouped[reference].Keys && key !in done && target != reference
    ensures var before := DifferencesOf(grouped, reference, done, {target});
            var after := DifferencesOf(grouped, reference, done + {key}, {target});
            var cell := Cell(target, key);
            && cell !in before
            && after == (if Differs(grouped, reference, cell) then before + {cell} else before)
            && ExcusedAmong(grouped, allowed, reference, after)
               == ExcusedAmong(grouped, allowed, reference, before)
                  + if Differs(grouped, reference, cell) && Excused(grouped, allowed, reference, cell)
                    then {cell} else {}
  {
  }

  /** The differences of one more target are new ones. */
  lemma OneMoreTarget(grouped: ByTarget, allowed: map<Cell, Difference>, reference: string, keys: set<Key>,
                      done: set<string>, target: string)
    requires reference in grouped && keys <= grouped[reference].Keys && target !in done
    ensures var before := DifferencesOf(grouped, reference, keys, done);
            var more := DifferencesOf(grouped, reference, keys, {target});
            var after := DifferencesOf(grouped, reference, keys, done + {target});
            && before !! more && after == before + more
            && (target == reference ==> more == {})
            && ExcusedAmong(grouped, allowed, reference, after)
               == ExcusedAmong(grouped, allowed, reference, before) + ExcusedAmong(grouped, allowed, reference, more)
  {
  }

  method CompareTargets(grouped: ByTarget, allowed: map<Cell, Difference>, reference: string, expected: set<Key>)
    returns (failed: bool, observed: set<Cell>)
    requires Complete(grouped, reference, expected)
    ensures observed
            == ExcusedAmong(grouped, allowed, reference, DifferencesOf(grouped, reference, expected, grouped.Keys))
    ensures !failed <==> observed == DifferencesOf(grouped, reference, expected, grouped.Keys)
  {
    failed, observed := false, {};
    var rest := grouped.Keys;
    ghost var done: set<string> := {};
    while rest != {}
      invariant rest + done == grouped.Keys && rest !! done
      invariant observed == ExcusedAmong(grouped, allowed, reference, DifferencesOf(grouped, reference, expected, done))
      invariant !failed <==> observed == DifferencesOf(grouped, reference, expected, done)
      decreases rest
    {
      var target :| target in rest;
      rest := rest - {target};
      OneMoreTarget(grouped, allowed, reference, expected, done, target);
      if target != reference {
        var oneFailed, more := CompareTarget(grouped, allowed, reference, expected, target);
        failed, observed := failed || oneFailed, observed + more;
      }
      done := done + {target};
    }
    assert done == grouped.Keys;
  }

  /** An entry nobody needed is stale, and a stale entry fails the comparison. */
  method FindStale(grouped: ByTarget, allowed: map<Cell, Difference>, observed: set<Cell>, requireTargets: bool)
    returns (stale: bool)
    ensures !stale <==> Accountable(grouped, allowed, requireTargets) <= observed
  {
    stale := false;
    var rest := allowed.Keys;
    while rest != {}
      invariant rest <= allowed.Keys
      invariant !stale <==> Accountable(grouped, allowed, requireTargets) - rest <= observed
      decreases rest
    {
      var cell :| cell in rest;
      rest := rest - {cell};
      if (cell.target in grouped || requireTargets) && cell !in observed {
        stale := true;
      }
    }
  }

  method BuildAllowList(differences: seq<Difference>) returns (allowed: map<Cell, Difference>)
    ensures allowed == AllowList(differences)
  {
    allowed := map[];
    for i := 0 to |differences|
      invariant allowed == AllowList(differences[..i])
    {
      assert differences[..i + 1][..i] == differences[..i];
      allowed := allowed[differences[i].cell := differences[i]];
    }
    assert differences[..|differences|] == differences;
  }

  /** What the results are, file after file, when no cell occurs twice. */
  ghost predicate Describes(results: seq<seq<Execution>>, grouped: ByTarget) {
    Groups(Flatten(results), |Flatten(results)|, grouped)
  }

  // ---------------------------------------------------------------- the verdict, seen from the results

  predicate HasTarget(executions: seq<Execution>, target: string) {
    exists i | 0 <= i < |executions| :: executions[i].cell.target == target
  }

  predicate SamePair(e: Execution, f: Execution) {
    e.outcome == f.outcome && e.fingerprint == f.fingerprint
  }

  /** Entry `k` is the one that counts for its cell: no later entry is for the same cell. */
  predicate Counts(differences: seq<Difference>, k: nat)
    requires k < |differences|
  {
    forall m | k < m < |differences| :: differences[m].cell != differences[k].cell
  }

  /** The entry gives the outcomes and fingerprints of both executions; the reference's may be left open. */
  predicate Records(entry: Difference, expected: Execution, actual: Execution) {
    && entry.cell == actual.cell
    && entry.referenceOutcome == expected.outcome && entry.candidateOutcome == actual.outcome
    && (entry.referenceFingerprint == None || entry.referenceFingerprint == Some(expected.fingerprint))
    && entry.candidateFingerprint == actual.fingerprint
  }

  predicate OnList(differences: seq<Difference>, expected: Execution, actual: Execution) {
    exists k | 0 <= k < |differences| :: Counts(differences, k) && Records(differences[k], expected, actual)
  }

  /** Some execution is for the cell, and it has the reference's pair or is on the allow-list. */
  predicate Matches(executions: seq<Execution>, differences: seq<Difference>, reference: string, cell: Cell) {
    exists i, j | 0 <= i < |executions| && 0 <= j < |executions| ::
      && executions[i].cell == cell && executions[j].cell == Cell(reference, cell.key)
      && (SamePair(executions[i], executions[j]) || OnList(differences, executions[j], executions[i]))
  }

  /** Some execution of another target is for the cell and does not have the reference's pair. */
  predicate Deviates(executions: seq<Execution>, reference: string, cell: Cell) {
    cell.target != reference &&
    exists i, j | 0 <= i < |executions| && 0 <= j < |executions| ::
      && executions[i].cell == cell && executions[j].cell == Cell(reference, cell.key)
      && !SamePair(executions[i], executions[j])
  }

  /**
   What a passing comparison means for the results themselves: every required target has results, every
   expected cell of every other target matches, and every allow-list entry the run is answerable for is
   for a cell that deviates.
   */
  ghost predicate Acceptable(executions: seq<Execution>, differences: seq<Difference>, reference: string,
                             expected: set<Key>, required: seq<string>, requireTargets: bool)
  {
    && (forall target | target in required :: HasTarget(executions, target))
    && (forall target, key | HasTarget(executions, target) && target != reference && key in expected ::
          Matches(executions, differences, reference, Cell(target, key)))
    && (forall k | 0 <= k < |differences| && Counts(differences, k)
                   && (HasTarget(executions, differences[k].cell.target) || requireTargets) ::
          differences[k].cell.key in expected && Deviates(executions, reference, differences[k].cell))
  }

  /** The entry that counts for a cell. */
  predicate CountsFor(differences: seq<Difference>, cell: Cell, k: nat) {
    k < |differences| && differences[k].cell == cell && Counts(differences, k)
  }

  lemma CountsForNext(differences: seq<Difference>, n: nat, cell: Cell, k: nat)
    requires |differences| == n + 1
    ensures CountsFor(differences, cell, k)
            <==> if differences[n].cell == cell then k == n else CountsFor(differences[..n], cell, k)
  {
    var front := differences[..n];
    if k < n {
      assert front[k] == differences[k];
      assert forall m | k < m < n :: front[m] == differences[m];
    }
  }

  lemma {:induction false} AllowListHas(differences: seq<Difference>, cell: Cell)
    ensures cell in AllowList(differences) <==> exists k: nat :: CountsFor(differences, cell, k)
    ensures forall k: nat | CountsFor(differences, cell, k) :: AllowList(differences)[cell] == differences[k]
  {
    if differences != [] {
      var n := |differences| - 1;
      AllowListHas(differences[..n], cell);
      forall k: nat
        ensures CountsFor(differences, cell, k)
                <==> if differences[n].cell == cell then k == n else CountsFor(differences[..n], cell, k)
      {
        CountsForNext(differences, n, cell, k);
      }
      if differences[n].cell == cell {
        assert CountsFor(differences, cell, n);
      } else if k: nat :| CountsFor(differences[..n], cell, k) {
        assert CountsFor(differences, cell, k);
      }
    }
  }

  /** Filed executions are the executions: a cell is recorded exactly if one is for it, and holds that one. */
  lemma FiledIs(executions: seq<Execution>, grouped: ByTarget, cell: Cell, i: nat)
    requires Groups(executions, |executions|, grouped) && i < |executions| && executions[i].cell == cell
    ensures Recorded(grouped, cell) && grouped[cell.target][cell.key] == executions[i]
  {
    assert Stored(grouped, executions[i]);
  }

  lemma RecordedHas(executions: seq<Execution>, grouped: ByTarget, cell: Cell) returns (i: nat)
    requires Groups(executions, |executions|, grouped) && Recorded(grouped, cell)
    ensures i < |executions| && executions[i].cell == cell && grouped[cell.target][cell.key] == executions[i]
  {
    assert Occurs(executions, |executions|, cell);
    i :| 0 <= i < |executions| && executions[i].cell == cell;
    FiledIs(executions, grouped, cell, i);
  }

  lemma TargetsFiled(executions: seq<Execution>, grouped: ByTarget, target: string)
    requires Groups(executions, |executions|, grouped)
    ensures target in grouped <==> HasTarget(executions, target)
  {
    if target in grouped {
      var key :| Recorded(grouped, Cell(target, key));
      var i := RecordedHas(executions, grouped, Cell(target, key));
    }
    if i :| 0 <= i < |executions| && executions[i].cell.target == target {
      FiledIs(executions, grouped, executions[i].cell, i);
    }
  }

  lemma OnListMeaning(differences: seq<Difference>, expected: Execution, actual: Execution)
    ensures OnList(differences, expected, actual)
            <==> && actual.cell in AllowList(differences)
                 && Records(AllowList(differences)[actual.cell], expected, actual)
  {
    AllowListHas(differences, actual.cell);
    if k :| 0 <= k < |differences| && Counts(differences, k) && Records(differences[k], expected, actual) {
      assert CountsFor(differences, actual.cell, k);
    }
  }

  /** An entry excuses a cell exactly if it is on the list with both executions' outcomes and fingerprints. */
  lemma ExcusedMeaning(executions: seq<Execution>, differences: seq<Difference>, grouped: ByTarget,
                       reference: string, cell: Cell, i: nat, j: nat)
    requires Groups(executions, |executions|, grouped) && i < |executions| && j < |executions|
    requires executions[i].cell == cell && executions[j].cell == Cell(reference, cell.key)
    ensures Recorded(grouped, Cell(reference, cell.key))
    ensures Excused(grouped, AllowList(differences), reference, cell)
            <==> OnList(differences, executions[j], executions[i])
    ensures Differs(grouped, reference, cell) <==> !SamePair(executions[i], executions[j])
  {
    FiledIs(executions, grouped, cell, i);
    FiledIs(executions, grouped, Cell(reference, cell.key), j);
    OnListMeaning(differences, executions[j], executions[i]);
  }

  /** A cell is no unexcused difference exactly if it matches. */
  lemma MatchMeaning(executions: seq<Execution>, differences: seq<Difference>, grouped: ByTarget,
                     reference: string, cell: Cell)
    requires Groups(executions, |executions|, grouped) && Recorded(grouped, Cell(reference, cell.key))
    ensures Matches(executions, differences, reference, cell)
            <==> !Differs(grouped, reference, cell) || Excused(grouped, AllowList(differences), reference, cell)
  {
    var j := RecordedHas(executions, grouped, Cell(reference, cell.key));
    if Recorded(grouped, cell) {
      var i := RecordedHas(executions, grouped, cell);
      ExcusedMeaning(executions, differences, grouped, reference, cell, i, j);
    }
    if i, m :| 0 <= i < |executions| && 0 <= m < |executions| && executions[i].cell == cell
               && executions[m].cell == Cell(reference, cell.key)
               && (SamePair(executions[i], executions[m]) || OnList(differences, executions[m], executions[i]))
    {
      ExcusedMeaning(executions, differences, grouped, reference, cell, i, m);
    }
  }

  /** A cell deviates exactly if it differs and is recorded. */
  lemma DeviationMeaning(executions: seq<Execution>, differences: seq<Difference>, grouped: ByTarget,
                         reference: string, cell: Cell)
    requires Groups(executions, |executions|, grouped) && Recorded(grouped, Cell(reference, cell.key))
    ensures Deviates(executions, reference, cell)
            <==> cell.target != reference && Recorded(grouped, cell) && Differs(grouped, reference, cell)
  {
    var j := RecordedHas(executions, grouped, Cell(reference, cell.key));
    if Recorded(grouped, cell) {
      var i := RecordedHas(executions, grouped, cell);
      ExcusedMeaning(executions, differences, grouped, reference, cell, i, j);
    }
    if i, m :| 0 <= i < |executions| && 0 <= m < |executions| && executions[i].cell == cell
               && executions[m].cell == Cell(reference, cell.key) && !SamePair(executions[i], executions[m])
    {
      ExcusedMeaning(executions, differences, grouped, reference, cell, i, m);
    }
  }

  lemma CleanIsAcceptable(executions: seq<Execution>, differences: seq<Difference>, grouped: ByTarget,
                          reference: string, expected: set<Key>, required: seq<string>, requireTargets: bool)
    requires Groups(executions, |executions|, grouped) && Complete(grouped, reference, expected)
    requires Clean(grouped, AllowList(differences), reference, expected, required, requireTargets)
    ensures Acceptable(executions, differences, reference, expected, required, requireTargets)
  {
    var allowed := AllowList(differences);
    var differing := DifferencesOf(grouped, reference, expected, grouped.Keys);
    forall target | target in required ensures HasTarget(executions, target) {
      TargetsFiled(executions, grouped, target);
    }
    forall target, key | HasTarget(executions, target) && target != reference && key in expected
      ensures Matches(executions, differences, reference, Cell(target, key))
    {
      TargetsFiled(executions, grouped, target);
      MatchMeaning(executions, differences, grouped, reference, Cell(target, key));
      if Differs(grouped, reference, Cell(target, key)) {
        assert Cell(target, key) in differing;
      }
    }
    forall k | 0 <= k < |differences| && Counts(differences, k)
               && (HasTarget(executions, differences[k].cell.target) || requireTargets)
      ensures differences[k].cell.key in expected && Deviates(executions, reference, differences[k].cell)
    {
      var cell := differences[k].cell;
      AllowListHas(differences, cell);
      assert CountsFor(differences, cell, k);
      TargetsFiled(executions, grouped, cell.target);
      assert cell in Accountable(grouped, allowed, requireTargets);
      assert cell in differing;
      DeviationMeaning(executions, differences, grouped, reference, cell);
    }
  }

  lemma AcceptableIsClean(executions: seq<Execution>, differences: seq<Difference>, grouped: ByTarget,
                          reference: string, expected: set<Key>, required: seq<string>, requireTargets: bool)
    requires Groups(executions, |executions|, grouped) && Complete(grouped, reference, expected)
    requires Acceptable(executions, differences, reference, expected, required, requireTargets)
    ensures Clean(grouped, AllowList(differences), reference, expected, required, requireTargets)
  {
    var allowed := AllowList(differences);
    var differing := DifferencesOf(grouped, reference, expected, grouped.Keys);
    forall target | target in required ensures target in grouped {
      TargetsFiled(executions, grouped, target);
    }
    forall cell | cell in differing
      ensures Excused(grouped, allowed, reference, cell) && cell in Accountable(grouped, allowed, requireTargets)
    {
      TargetsFiled(executions, grouped, cell.target);
      assert Matches(executions, differences, reference, Cell(cell.target, cell.key));
      MatchMeaning(executions, differences, grouped, reference, cell);
    }
    forall cell | cell in Accountable(grouped, allowed, requireTargets) ensures cell in differing {
      AllowListHas(differences, cell);
      TargetsFiled(executions, grouped, cell.target);
      var k: nat :| CountsFor(differences, cell, k);
      DeviationMeaning(executions, differences, grouped, reference, cell);
    }
    assert differing == Accountable(grouped, allowed, requireTargets);
  }

  /** The clean comparison is the acceptable one. */
  lemma CleanMeaning(executions: seq<Execution>, differences: seq<Difference>, grouped: ByTarget,
                     reference: string, expected: set<Key>, required: seq<string>, requireTargets: bool)
    requires Groups(executions, |executions|, grouped) && Complete(grouped, reference, expected)
    ensures Clean(grouped, AllowList(differences), reference, expected, required, requireTargets)
            <==> Acceptable(executions, differences, reference, expected, required, requireTargets)
  {
    if Clean(grouped, AllowList(differences), reference, expected, required, requireTargets) {
      CleanIsAcceptable(executions, differences, grouped, reference, expected, required, requireTargets);
    }
    if Acceptable(executions, differences, reference, expected, required, requireTargets) {
      AcceptableIsClean(executions, differences, grouped, reference, expected, required, requireTargets);
    }
  }

  /** The reference has results for exactly the expected keys. */
  predicate Covered(executions: seq<Execution>, reference: string, expected: set<Key>) {
    && (forall key | key in expected :: Occurs(executions, |executions|, Cell(reference, key)))
    && forall i | 0 <= i < |executions| && executions[i].cell.target == reference :: executions[i].cell.key in expected
  }

  lemma CompleteMeaning(executions: seq<Execution>, grouped: ByTarget, reference: string, expected: set<Key>)
    requires Groups(executions, |executions|, grouped)
    ensures reference in grouped <==> HasTarget(executions, reference)
    ensures Complete(grouped, reference, expected)
            <==> HasTarget(executions, reference) && Covered(executions, reference, expected)
    ensures grouped.Keys == {reference}
            <==> HasTarget(executions, reference)
                 && forall i | 0 <= i < |executions| :: executions[i].cell.target == reference
  {
    TargetsFiled(executions, grouped, reference);
    forall i | 0 <= i < |executions| ensures executions[i].cell.target in grouped {
      TargetsFiled(executions, grouped, executions[i].cell.target);
    }
    forall target | target in grouped ensures HasTarget(executions, target) {
      TargetsFiled(executions, grouped, target);
    }
    if reference in grouped {
      KeysMeaning(executions, grouped, reference, expected);
    }
  }

  lemma KeysMeaning(executions: seq<Execution>, grouped: ByTarget, reference: string, expected: set<Key>)
    requires Groups(executions, |executions|, grouped) && reference in grouped
    ensures grouped[reference].Keys == expected <==> Covered(executions, reference, expected)
  {
    forall key ensures key in grouped[reference] <==> Occurs(executions, |executions|, Cell(reference, key)) {
      var cell := Cell(reference, key);
      if Recorded(grouped, cell) {
        assert Occurs(executions, |executions|, cell);
      }
      if i :| 0 <= i < |executions| && executions[i].cell == cell {
        FiledIs(executions, grouped, cell, i);
      }
    }
    if grouped[reference].Keys == expected {
      forall i | 0 <= i < |executions| && executions[i].cell.target == reference
        ensures executions[i].cell.key in expected
      {
        assert executions[i].cell == Cell(reference, executions[i].cell.key);
        assert Occurs(executions, |executions|, Cell(reference, executions[i].cell.key));
      }
    }
  }

  /**
   The gate. It raises a contract error exactly on a repeated cell, a reference without results or an
   incomplete reference. Otherwise it does not fail exactly on acceptable results, and reports the
   reference alone exactly if there are no other results.
   */
  method CompareResults(expected: set<Key>, differences: seq<Difference>, results: seq<seq<Execution>>,
                        reference: string, required: seq<string>, requireTargets: bool)
    returns (r: Result<Status, ContractError>, ghost grouped: ByTarget)
    ensures r == Err(DuplicateExecution) <==> Repeats(Flatten(results), |Flatten(results)|)
    ensures r != Err(DuplicateExecution) ==> Describes(results, grouped)
    ensures r != Err(DuplicateExecution) ==> (r.Ok? <==> Complete(grouped, reference, expected))
    ensures r != Err(DuplicateExecution) ==> (r == Err(NoReference) <==> reference !in grouped)
    ensures r != Err(DuplicateExecution) ==>
              (r.Ok? <==> HasTarget(Flatten(results), reference) && Covered(Flatten(results), reference, expected))
    ensures r != Err(DuplicateExecution) ==> (r == Err(NoReference) <==> !HasTarget(Flatten(results), reference))
    ensures r.Ok? ==>
              (r.value != Failed
               <==> Clean(grouped, AllowList(differences), reference, expected, required, requireTargets))
    ensures r.Ok? ==>
              (r.value != Failed
               <==> Acceptable(Flatten(results), differences, reference, expected, required, requireTargets))
    ensures r.Ok? && r.value != Failed ==> (r.value == ReferenceOnly <==> grouped.Keys == {reference})
    ensures r.Ok? && r.value != Failed ==>
              (r.value == ReferenceOnly
               <==> forall i | 0 <= i < |Flatten(results)| :: Flatten(results)[i].cell.target == reference)
  {
    var executions := Collect(results);
    var byTarget := Group(executions);
    if byTarget.Err? {
      return Err(DuplicateExecution), map[];
    }
    grouped := byTarget.value;
    CompleteMeaning(executions, grouped, reference, expected);
    if reference !in byTarget.value {
      return Err(NoReference), grouped;
    }
    if byTarget.value[reference].Keys != expected {
      return Err(IncompleteReference), grouped;
    }
    CleanMeaning(executions, differences, grouped, reference, expected, required, requireTargets);
    var status := Judge(byTarget.value, differences, reference, expected, required, requireTargets);
    return Ok(status), grouped;
  }

  method Judge(grouped: ByTarget, differences: seq<Difference>, reference: string, expected: set<Key>,
               required: seq<string>, requireTargets: bool) returns (status: Status)
    requires Complete(grouped, reference, expected)
    ensures status != Failed <==> Clean(grouped, AllowList(differences), reference, expected, required, requireTargets)
    ensures status != Failed ==> (status == ReferenceOnly <==> grouped.Keys == {reference})
  {
    var allowed := BuildAllowList(differences);
    var missing := set target | target in required && target !in grouped;
    var failed, observed := CompareTargets(grouped, allowed, reference, expected);
    var stale := FindStale(grouped, allowed, observed, requireTargets);
    VerdictMeaning(grouped, allowed, reference, expected, required, requireTargets, missing, observed);
    if missing != {} || failed || stale {
      return Failed;
    }
    if |grouped| == 1 {
      OneTarget(grouped.Keys, reference);
      return ReferenceOnly;
    }
    return Passed;
  }

  lemma OneTarget(targets: set<string>, reference: string)
    requires |targets| == 1 && reference in targets
    ensures targets == {reference}
  {
    assert |targets - {reference}| == 0;
  }

  /** No missing target, no unexcused difference and no stale entry together are a clean comparison. */
  lemma VerdictMeaning(grouped: ByTarget, allowed: map<Cell, Difference>, reference: string, expected: set<Key>,
                       required: seq<string>, requireTargets: bool, missing: set<string>, observed: set<Cell>)
    requires Complete(grouped, reference, expected)
    requires missing == set target | target in required && target !in grouped
    requires observed
             == ExcusedAmong(grouped, allowed, reference, DifferencesOf(grouped, reference, expected, grouped.Keys))
    ensures Clean(grouped, allowed, reference, expected, required, requireTargets)
            <==> && missing == {}
                 && observed == DifferencesOf(grouped, reference, expected, grouped.Keys)
                 && Accountable(grouped, allowed, requireTargets) <= observed
  {
    var differing := DifferencesOf(grouped, reference, expected, grouped.Keys);
    if Clean(grouped, allowed, reference, expected, required, requireTargets) {
      assert missing == {};
      forall cell | cell in differing ensures cell in observed {
        assert Excused(grouped, allowed, reference, cell);
      }
    }
    if missing == {} && observed == differing && Accountable(grouped, allowed, requireTargets) <= observed {
      forall target | target in required ensures target in grouped {
        assert target !in missing;
      }
      assert differing == Accountable(grouped, allowed, requireTargets);
    }
  }
}

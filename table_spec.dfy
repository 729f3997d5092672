/** The rule table as a value: selections, deletions by id, the table invariant, and the
    specifications of the update and batch operations. */
module TableSpec {
  import opened Fields
  import opened RuleRows

  /** `select()` of a query: the rows it selects, in table order. */
  function Select(rows: seq<Row>, q: Query): (r: seq<Row>)
    ensures |r| <= |rows|
    ensures forall x :: x in r <==> x in rows && Satisfies(x, q)
  {
    if rows == [] then []
    else (if Satisfies(rows[0], q) then [rows[0]] else []) + Select(rows[1..], q)
  }

  /** The rows a query does not select, in table order: what remains once its selection is deleted. */
  function Reject(rows: seq<Row>, q: Query): (r: seq<Row>)
    ensures |r| <= |rows|
    ensures forall x :: x in r <==> x in rows && !Satisfies(x, q)
  {
    if rows == [] then []
    else (if Satisfies(rows[0], q) then [] else [rows[0]]) + Reject(rows[1..], q)
  }

  function IdsOf(rows: seq<Row>): set<nat>
  {
    set x | x in rows :: x.id
  }

  /** The table after `where('id', id)->delete()` for every id in `ids`. */
  function WithoutIds(rows: seq<Row>, ids: set<nat>): (r: seq<Row>)
    ensures forall x :: x in r <==> x in rows && x.id !in ids
  {
    if rows == [] then []
    else (if rows[0].id in ids then [] else [rows[0]]) + WithoutIds(rows[1..], ids)
  }

  predicate IdsIncreasing(rows: seq<Row>)
  {
    forall i, j :: 0 <= i < j < |rows| ==> rows[i].id < rows[j].id
  }

  /** The table invariant: identities increase along the table (so no two rows share one), every
      identity is below the next auto-increment value, and every row has the columns v0..v5. */
  predicate WellFormed(rows: seq<Row>, nextId: nat)
  {
    IdsIncreasing(rows) && forall x :: x in rows ==> x.id < nextId && |x.v| == Width
  }

  lemma {:induction false} WithoutIdsKeepsWellFormed(rows: seq<Row>, ids: set<nat>, nextId: nat)
    requires WellFormed(rows, nextId)
    ensures WellFormed(WithoutIds(rows, ids), nextId)
  {
    if rows != [] {
      var rest := rows[1..];
      HeadBelowRest(rows);
      WithoutIdsKeepsWellFormed(rest, ids, nextId);
      var tail := WithoutIds(rest, ids);
      if rows[0].id !in ids {
        ConsIncreasing(rows[0], tail);
        assert WithoutIds(rows, ids) == [rows[0]] + tail;
      } else {
        assert WithoutIds(rows, ids) == tail;
      }
    }
  }

  lemma HeadBelowRest(rows: seq<Row>)
    requires rows != [] && IdsIncreasing(rows)
    ensures IdsIncreasing(rows[1..])
    ensures forall y :: y in rows[1..] ==> rows[0].id < y.id
  {
    var rest := rows[1..];
    forall i, j | 0 <= i < j < |rest|
      ensures rest[i].id < rest[j].id
    {
      assert rest[i] == rows[i + 1] && rest[j] == rows[j + 1];
    }
    forall y | y in rest
      ensures rows[0].id < y.id
    {
      var m :| 0 <= m < |rest| && rest[m] == y;
      assert rows[m + 1] == y;
    }
  }

  lemma ConsIncreasing(x: Row, tail: seq<Row>)
    requires IdsIncreasing(tail)
    requires forall y :: y in tail ==> x.id < y.id
    ensures IdsIncreasing([x] + tail)
  {
    var r := [x] + tail;
    forall i, j | 0 <= i < j < |r|
      ensures r[i].id < r[j].id
    {
      assert r[j] == tail[j - 1];
      if i > 0 {
        assert r[i] == tail[i - 1];
      } else {
        assert r[j] in tail;
      }
    }
  }

  /** Deleting one more identity. */
  lemma IdsOfPrefix(rows: seq<Row>, k: nat)
    requires k < |rows|
    ensures IdsOf(rows[..k + 1]) == IdsOf(rows[..k]) + {rows[k].id}
  {
    assert rows[..k + 1] == rows[..k] + [rows[k]];
  }

  lemma {:induction false} WithoutNoIds(rows: seq<Row>)
    ensures WithoutIds(rows, {}) == rows
  {
    if rows != [] {
      WithoutNoIds(rows[1..]);
    }
  }

  lemma {:induction false} WithoutIdsAddOne(rows: seq<Row>, ids: set<nat>, id: nat)
    ensures WithoutIds(WithoutIds(rows, ids), {id}) == WithoutIds(rows, ids + {id})
  {
    if rows != [] {
      WithoutIdsAddOne(rows[1..], ids, id);
      var head := if rows[0].id in ids then [] else [rows[0]];
      assert WithoutIds(rows, ids) == head + WithoutIds(rows[1..], ids);
      WithoutIdsAppend(head, WithoutIds(rows[1..], ids), {id});
    }
  }

  lemma {:induction false} WithoutIdsAppend(a: seq<Row>, b: seq<Row>, ids: set<nat>)
    ensures WithoutIds(a + b, ids) == WithoutIds(a, ids) + WithoutIds(b, ids)
  {
    if a == [] {
      assert a + b == b;
    } else {
      assert (a + b)[1..] == a[1..] + b;
      WithoutIdsAppend(a[1..], b, ids);
    }
  }

  /** Deleting by identity the rows whose identity marks exactly the rows a query selects leaves
      the rows the query does not select. */
  lemma {:induction false} WithoutMarkedIds(rows: seq<Row>, ids: set<nat>, q: Query)
    requires forall x :: x in rows ==> (x.id in ids <==> Satisfies(x, q))
    ensures WithoutIds(rows, ids) == Reject(rows, q)
  {
    if rows != [] {
      WithoutMarkedIds(rows[1..], ids, q);
    }
  }

  /** Deleting, one identity at a time, the rows a `select()` returned deletes exactly those rows:
      identities are unique, so no other row shares one of them. */
  lemma DeletingSelectedRows(rows: seq<Row>, nextId: nat, q: Query)
    requires WellFormed(rows, nextId)
    ensures WithoutIds(rows, IdsOf(Select(rows, q))) == Reject(rows, q)
  {
    var ids := IdsOf(Select(rows, q));
    forall x | x in rows
      ensures x.id in ids <==> Satisfies(x, q)
    {
      if x.id in ids {
        var y :| y in Select(rows, q) && y.id == x.id;
        var i :| 0 <= i < |rows| && rows[i] == x;
        var j :| 0 <= j < |rows| && rows[j] == y;
        assert i == j;
      }
    }
    WithoutMarkedIds(rows, ids, q);
  }

  /** Appending inserted rows keeps the invariant and moves the auto-increment value past them. */
  lemma AppendStampedKeepsWellFormed(rows: seq<Row>, nextId: nat, recs: seq<Record>)
    requires WellFormed(rows, nextId)
    requires forall k :: 0 <= k < |recs| ==> |recs[k].v| == Width
    ensures WellFormed(rows + Stamped(nextId, recs), nextId + |recs|)
  {
    var all := rows + Stamped(nextId, recs);
    forall i, j | 0 <= i < j < |all|
      ensures all[i].id < all[j].id
    {
      if j < |rows| {
      } else if i < |rows| {
        assert all[i] in rows;
      }
    }
    forall x | x in all
      ensures x.id < nextId + |recs| && |x.v| == Width
    {
      var i :| 0 <= i < |all| && all[i] == x;
      if i >= |rows| {
        assert x == Stamped(nextId, recs)[i - |rows|];
      }
    }
  }

  /** Selecting and rejecting split the table: every row is in exactly one of the two parts. */
  lemma {:induction false} SelectRejectPartition(rows: seq<Row>, q: Query)
    ensures multiset(Select(rows, q)) + multiset(Reject(rows, q)) == multiset(rows)
  {
    if rows != [] {
      var rest := rows[1..];
      SelectRejectPartition(rest, q);
      assert multiset(rows) == multiset{rows[0]} + multiset(rest) by {
        assert rows == [rows[0]] + rest;
      }
      if Satisfies(rows[0], q) {
        assert Select(rows, q) == [rows[0]] + Select(rest, q);
        assert Reject(rows, q) == Reject(rest, q);
      } else {
        assert Select(rows, q) == Select(rest, q);
        assert Reject(rows, q) == [rows[0]] + Reject(rest, q);
      }
    }
  }

  /** What `_removeFilteredPolicy` reports for the rows it deletes: `filterRule(v0..v5)` of each,
      in select order. */
  function RemovedRuleValues(selected: seq<Row>): (rules: seq<seq<Option<string>>>)
    ensures |rules| == |selected|
    ensures forall i :: 0 <= i < |selected| ==> rules[i] == TrimTrailingBlanks(selected[i].v)
  {
    if selected == [] then []
    else [TrimTrailingBlanks(selected[0].v)] + RemovedRuleValues(selected[1..])
  }

  /** A row stored for a rule whose last value is not empty is reported back as exactly that rule. */
  lemma {:induction false} EncodedRuleReportedBack(ptype: string, rule: seq<string>)
    requires FitsColumns(rule)
    requires rule == [] || rule[|rule| - 1] != ""
    ensures TrimTrailingBlanks(Encode(ptype, rule).v) == Lift(rule)
  {
    var nulls: seq<Option<string>> := seq(Width - |rule|, _ => None);
    assert Encode(ptype, rule).v == Lift(rule) + nulls;
    assert forall k :: 0 <= k < |nulls| ==> IsBlank(nulls[k]);
    if rule == [] {
      assert Lift(rule) + nulls == nulls;
      TrimTrailingBlanksAllBlank(nulls);
    } else {
      LastValueKept(rule, nulls);
    }
  }

  /** Blank columns after a rule whose last value is not empty are all cut off again. */
  lemma LastValueKept(rule: seq<string>, nulls: seq<Option<string>>)
    requires rule != [] && rule[|rule| - 1] != ""
    requires forall k :: 0 <= k < |nulls| ==> IsBlank(nulls[k])
    ensures TrimTrailingBlanks(Lift(rule) + nulls) == Lift(rule)
  {
    var n := |rule|;
    LiftAppend(rule[..n - 1], [rule[n - 1]]);
    assert Lift([rule[n - 1]]) == [Some(rule[n - 1])];
    assert rule[..n - 1] + [rule[n - 1]] == rule;
    TrimTrailingBlanksKeepsInterior(Lift(rule[..n - 1]), rule[n - 1], nulls);
  }

  /** The index of the first row, in select order, that a query selects: what `find()` returns. */
  function FirstMatch(rows: seq<Row>, q: Query): (k: Option<nat>)
    ensures k.Some? ==> k.value < |rows| && Satisfies(rows[k.value], q) &&
                        forall j :: 0 <= j < k.value ==> !Satisfies(rows[j], q)
    ensures k.None? ==> forall j :: 0 <= j < |rows| ==> !Satisfies(rows[j], q)
  {
    if rows == [] then None
    else if Satisfies(rows[0], q) then Some(0)
    else match FirstMatch(rows[1..], q)
      case None => None
      case Some(k) => Some(k + 1)
  }

  /** The value columns after `$instance->v<key> = newRule[key]` for every key of the new rule. */
  function Overwritten(v: seq<Option<string>>, newRule: seq<string>): seq<Option<string>>
  {
    seq(|v|, k requires 0 <= k < |v| => if k < |newRule| then Some(newRule[k]) else v[k])
  }

  /** `updatePolicy` on the table as a value: the first row that the old rule selects gets the new
      rule's values, or there is no such row and the update fails. */
  function UpdateRows(rows: seq<Row>, ptype: string, oldRule: seq<string>, newRule: seq<string>): Option<seq<Row>>
  {
    match FirstMatch(rows, RuleQuery(ptype, oldRule))
    case None => None
    case Some(k) => Some(rows[k := rows[k].(v := Overwritten(rows[k].v, newRule))])
  }

  /** The update fails exactly when no row matches the old rule. */
  lemma UpdateRowsFailsIffNoMatch(rows: seq<Row>, ptype: string, oldRule: seq<string>, newRule: seq<string>)
    ensures UpdateRows(rows, ptype, oldRule, newRule).None? <==>
      forall j :: 0 <= j < |rows| ==> !MatchesRule(rows[j], ptype, oldRule)
  {
    var q := RuleQuery(ptype, oldRule);
    forall j | 0 <= j < |rows|
      ensures Satisfies(rows[j], q) <==> MatchesRule(rows[j], ptype, oldRule)
    {
      RuleQueryMeaning(rows[j], ptype, oldRule);
    }
  }

  /** When row k is the first match, the update changes only row k, and in it only the columns the
      new rule supplies; its identity, its ptype and its other columns are kept. */
  lemma UpdateRowsChangesFirstMatch(rows: seq<Row>, ptype: string, oldRule: seq<string>, newRule: seq<string>, k: nat)
    requires k < |rows| && MatchesRule(rows[k], ptype, oldRule)
    requires forall j :: 0 <= j < k ==> !MatchesRule(rows[j], ptype, oldRule)
    ensures UpdateRows(rows, ptype, oldRule, newRule).Some?
    ensures var r := UpdateRows(rows, ptype, oldRule, newRule).value;
      && |r| == |rows|
      && (forall j :: 0 <= j < |rows| && j != k ==> r[j] == rows[j])
      && r[k].id == rows[k].id && r[k].ptype == rows[k].ptype && |r[k].v| == |rows[k].v|
      && (forall c :: 0 <= c < |rows[k].v| ==>
            r[k].v[c] == if c < |newRule| then Some(newRule[c]) else rows[k].v[c])
  {
    var q := RuleQuery(ptype, oldRule);
    RuleQueryMeaning(rows[k], ptype, oldRule);
    forall j | 0 <= j < k
      ensures !Satisfies(rows[j], q)
    {
      RuleQueryMeaning(rows[j], ptype, oldRule);
    }
    assert FirstMatch(rows, q) == Some(k);
  }

  /** Why `updatePolicy` or `updatePolicies` fails; the failed call leaves the table as it was. */
  datatype UpdateError =
    | NoMatchingRow(index: nat)   // `find()` returned null for the pair at `index`
    | MissingNewRule(index: nat)  // `newRules[index]` does not exist

  datatype Result<T> = Ok(value: T) | Err(error: UpdateError)

  /** `updatePolicies` from pair `i` on: `updatePolicy(oldRules[i], newRules[i])` in index order,
      stopping at the first pair that fails. */
  function ApplyUpdates(rows: seq<Row>, ptype: string, oldRules: seq<seq<string>>, newRules: seq<seq<string>>, i: nat): Result<seq<Row>>
    requires i <= |oldRules|
    decreases |oldRules| - i
  {
    if i == |oldRules| then Ok(rows)
    else if i >= |newRules| then Err(MissingNewRule(i))
    else match UpdateRows(rows, ptype, oldRules[i], newRules[i])
      case None => Err(NoMatchingRow(i))
      case Some(next) => ApplyUpdates(next, ptype, oldRules, newRules, i + 1)
  }

  /** With fewer new rules than old rules the batch always fails. */
  lemma {:induction false} ApplyUpdatesNeedsEveryNewRule(rows: seq<Row>, ptype: string, oldRules: seq<seq<string>>, newRules: seq<seq<string>>, i: nat)
    requires i <= |newRules| < |oldRules|
    ensures ApplyUpdates(rows, ptype, oldRules, newRules, i).Err?
    decreases |newRules| - i
  {
    if i < |newRules| {
      match UpdateRows(rows, ptype, oldRules[i], newRules[i])
      case None =>
      case Some(next) => ApplyUpdatesNeedsEveryNewRule(next, ptype, oldRules, newRules, i + 1);
    }
  }

  /** A successful batch keeps every row in place with its identity, its ptype and its six columns. */
  lemma {:induction false} ApplyUpdatesKeepsIdentities(rows: seq<Row>, ptype: string, oldRules: seq<seq<string>>, newRules: seq<seq<string>>, i: nat)
    requires i <= |oldRules|
    requires ApplyUpdates(rows, ptype, oldRules, newRules, i).Ok?
    ensures var r := ApplyUpdates(rows, ptype, oldRules, newRules, i).value;
      |r| == |rows| &&
      forall j :: 0 <= j < |rows| ==> r[j].id == rows[j].id && r[j].ptype == rows[j].ptype && |r[j].v| == |rows[j].v|
    decreases |oldRules| - i
  {
    if i < |oldRules| {
      var next := UpdateRows(rows, ptype, oldRules[i], newRules[i]).value;
      ApplyUpdatesKeepsIdentities(next, ptype, oldRules, newRules, i + 1);
    }
  }

  /** Keeping identities, ptypes and column counts keeps the table invariant. */
  lemma SameShapeKeepsWellFormed(rows: seq<Row>, r: seq<Row>, nextId: nat)
    requires WellFormed(rows, nextId) && |r| == |rows|
    requires forall j :: 0 <= j < |rows| ==> r[j].id == rows[j].id && |r[j].v| == |rows[j].v|
    ensures WellFormed(r, nextId)
  {
    forall x | x in r
      ensures x.id < nextId && |x.v| == Width
    {
      var j :| 0 <= j < |r| && r[j] == x;
      assert rows[j] in rows;
    }
  }

  /** `removePolicies`: `removePolicy` with each rule in turn. */
  function RemoveEach(rows: seq<Row>, ptype: string, rules: seq<seq<string>>): seq<Row>
    decreases |rules|
  {
    if rules == [] then rows
    else RemoveEach(Reject(rows, RuleQuery(ptype, rules[0])), ptype, rules[1..])
  }

  predicate MatchesAny(row: Row, ptype: string, rules: seq<seq<string>>)
  {
    exists j :: 0 <= j < |rules| && MatchesRule(row, ptype, rules[j])
  }

  /** The rows none of the rules match, in table order. */
  function KeepUnmatched(rows: seq<Row>, ptype: string, rules: seq<seq<string>>): (r: seq<Row>)
    ensures forall x :: x in r <==> x in rows && !MatchesAny(x, ptype, rules)
  {
    if rows == [] then []
    else (if MatchesAny(rows[0], ptype, rules) then [] else [rows[0]]) + KeepUnmatched(rows[1..], ptype, rules)
  }

  lemma {:induction false} MatchesAnySplit(x: Row, ptype: string, rules: seq<seq<string>>)
    requires rules != []
    ensures MatchesAny(x, ptype, rules) <==> MatchesRule(x, ptype, rules[0]) || MatchesAny(x, ptype, rules[1..])
  {
    if MatchesAny(x, ptype, rules) && !MatchesRule(x, ptype, rules[0]) {
      var j :| 0 <= j < |rules| && MatchesRule(x, ptype, rules[j]);
      assert rules[1..][j - 1] == rules[j];
    }
    if MatchesAny(x, ptype, rules[1..]) {
      var j :| 0 <= j < |rules[1..]| && MatchesRule(x, ptype, rules[1..][j]);
      assert rules[1..][j] == rules[j + 1];
    }
    if MatchesRule(x, ptype, rules[0]) {
      assert 0 < |rules|;
    }
  }

  lemma {:induction false} KeepUnmatchedAfterReject(rows: seq<Row>, ptype: string, rules: seq<seq<string>>)
    requires rules != []
    ensures KeepUnmatched(Reject(rows, RuleQuery(ptype, rules[0])), ptype, rules[1..]) == KeepUnmatched(rows, ptype, rules)
  {
    if rows != [] {
      var x := rows[0];
      var q := RuleQuery(ptype, rules[0]);
      KeepUnmatchedAfterReject(rows[1..], ptype, rules);
      RuleQueryMeaning(x, ptype, rules[0]);
      MatchesAnySplit(x, ptype, rules);
      if Satisfies(x, q) {
        assert Reject(rows, q) == Reject(rows[1..], q);
      } else {
        assert Reject(rows, q) == [x] + Reject(rows[1..], q);
        assert ([x] + Reject(rows[1..], q))[1..] == Reject(rows[1..], q);
      }
    }
  }

  /** Removing rule by rule leaves, in table order, exactly the rows that none of the rules match. */
  lemma {:induction false} RemoveEachKeepsUnmatched(rows: seq<Row>, ptype: string, rules: seq<seq<string>>)
    ensures RemoveEach(rows, ptype, rules) == KeepUnmatched(rows, ptype, rules)
    decreases |rules|
  {
    if rules == [] {
      KeepAllWhenNoRules(rows, ptype, rules);
    } else {
      RemoveEachKeepsUnmatched(Reject(rows, RuleQuery(ptype, rules[0])), ptype, rules[1..]);
      KeepUnmatchedAfterReject(rows, ptype, rules);
    }
  }

  lemma {:induction false} KeepAllWhenNoRules(rows: seq<Row>, ptype: string, rules: seq<seq<string>>)
    requires rules == []
    ensures KeepUnmatched(rows, ptype, rules) == rows
  {
    if rows != [] {
      KeepAllWhenNoRules(rows[1..], ptype, rules);
    }
  }
}

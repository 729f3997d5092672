/** The database adapter: the policy rule table as an object whose rows the adapter's
    operations insert, delete and overwrite in place. */
module DatabaseAdapter {
  import opened Fields
  import opened RuleRows
  import opened TableSpec
  import opened PolicyText

  class Adapter {
    /** The rule table in select order. */
    var rows: seq<Row>
    /** The identity the table's auto-increment gives the next inserted row. */
    var nextId: nat

    ghost predicate Valid()
      reads this
    {
      WellFormed(rows, nextId)
    }

    /** An adapter over the rule table `$ruleModel` stands for, with whatever rows it already holds
        and the identity its auto-increment will hand out next. */
    constructor(initial: seq<Row>, next: nat)
      requires WellFormed(initial, next)
      ensures Valid()
      ensures rows == initial && nextId == next
    {
      rows := initial;
      nextId := next;
    }

    /** `create($col)`: the table stores the column map as a new row with a fresh identity. */
    method Create(rec: Record)
      requires Valid() && |rec.v| == Width
      modifies this
      ensures Valid()
      ensures rows == old(rows) + [Row(old(nextId), rec.ptype, rec.v)]
      ensures nextId == old(nextId) + 1
    {
      rows := rows + [Row(nextId, rec.ptype, rec.v)];
      nextId := nextId + 1;
    }

    /** `insertAll($cols)`: the column maps are stored in order, with consecutive identities. */
    method InsertAll(recs: seq<Record>)
      requires Valid()
      requires forall k :: 0 <= k < |recs| ==> |recs[k].v| == Width
      modifies this
      ensures Valid()
      ensures rows == old(rows) + Stamped(old(nextId), recs)
      ensures nextId == old(nextId) + |recs|
    {
      AppendStampedKeepsWellFormed(rows, nextId, recs);
      rows := rows + Stamped(nextId, recs);
      nextId := nextId + |recs|;
    }

    /** `where('id', id)->delete()`. */
    method DeleteById(id: nat)
      requires Valid()
      modifies this
      ensures Valid()
      ensures rows == WithoutIds(old(rows), {id})
      ensures nextId == old(nextId)
    {
      WithoutIdsKeepsWellFormed(rows, {id}, nextId);
      rows := WithoutIds(rows, {id});
    }

    /** The deletion loop of `removePolicy` and `removeFilteredPolicy`: each selected row is
        deleted by its identity. */
    method DeleteSelected(selected: seq<Row>)
      requires Valid()
      modifies this
      ensures Valid()
      ensures rows == WithoutIds(old(rows), IdsOf(selected))
      ensures nextId == old(nextId)
    {
      WithoutNoIds(rows);
      assert IdsOf(selected[..0]) == {};
      for k := 0 to |selected|
        invariant Valid() && nextId == old(nextId)
        invariant rows == WithoutIds(old(rows), IdsOf(selected[..k]))
      {
        ghost var before := rows;
        DeleteById(selected[k].id);
        DeletingOneMore(rows, before, old(rows), selected, k);
      }
      assert selected[..|selected|] == selected;
    }

    /** `savePolicyLine`: a new row with the given ptype, `v<i>` set to `rule[i]` and the other
        columns null. */
    method SavePolicyLine(ptype: string, rule: seq<string>)
      requires Valid() && FitsColumns(rule)
      modifies this
      ensures Valid()
      ensures rows == old(rows) + [Row(old(nextId), ptype, Encode(ptype, rule).v)]
      ensures nextId == old(nextId) + 1
      ensures MatchesRule(rows[|rows| - 1], ptype, rule)
    {
      var col := ColumnMap(ptype, rule);
      Create(col);
      EncodedRowMatchesRule(old(nextId), ptype, rule, |rule|);
      assert rule[..|rule|] == rule;
    }

    /** `addPolicy`: the rule is saved as one row; the section name is not used. */
    method AddPolicy(ptype: string, rule: seq<string>)
      requires Valid() && FitsColumns(rule)
      modifies this
      ensures Valid()
      ensures rows == old(rows) + [Row(old(nextId), ptype, Encode(ptype, rule).v)]
      ensures nextId == old(nextId) + 1
    {
      SavePolicyLine(ptype, rule);
    }

    /** `addPolicies`: the column maps are built in order and inserted in one batch, duplicates
        included. */
    method AddPolicies(ptype: string, rules: seq<seq<string>>)
      requires Valid() && AllFitColumns(rules)
      modifies this
      ensures Valid()
      ensures rows == old(rows) + Stamped(old(nextId), EncodeAll(ptype, rules))
      ensures nextId == old(nextId) + |rules|
    {
      var cols: seq<Record> := [];
      for i := 0 to |rules|
        invariant rows == old(rows) && nextId == old(nextId)
        invariant |cols| == i
        invariant forall j :: 0 <= j < i ==> cols[j] == Encode(ptype, rules[j])
      {
        var temp := ColumnMap(ptype, rules[i]);
        cols := cols + [temp];
      }
      assert cols == EncodeAll(ptype, rules);
      InsertAll(cols);
    }

    /** `savePolicy`: every rule of the `p` sections, then every rule of the `g` sections, one
        row each; the table is neither cleared first nor deduplicated. */
    method SavePolicy(pSections: seq<Section>, gSections: seq<Section>)
      requires Valid() && SectionsFitColumns(pSections) && SectionsFitColumns(gSections)
      modifies this
      ensures Valid()
      ensures rows == old(rows) + Stamped(old(nextId), EncodeSections(pSections) + EncodeSections(gSections))
      ensures nextId == old(nextId) + RuleCount(pSections) + RuleCount(gSections)
    {
      EncodeSectionsCount(pSections);
      EncodeSectionsCount(gSections);
      SaveSections(pSections);
      ghost var middle := rows;
      SaveSections(gSections);
      StampedStep(rows, middle, old(rows), old(nextId), EncodeSections(pSections), EncodeSections(gSections));
    }

    /** One of the two outer loops of `savePolicy`: each section's rules in turn. */
    method SaveSections(sections: seq<Section>)
      requires Valid() && SectionsFitColumns(sections)
      modifies this
      ensures Valid()
      ensures rows == old(rows) + Stamped(old(nextId), EncodeSections(sections))
      ensures nextId == old(nextId) + |EncodeSections(sections)|
    {
      for s := 0 to |sections|
        invariant Valid()
        invariant rows == old(rows) + Stamped(old(nextId), EncodeSections(sections[..s]))
        invariant nextId == old(nextId) + |EncodeSections(sections[..s])|
      {
        ghost var before := rows;
        SaveSection(sections[s]);
        SavedOneMoreSection(rows, before, old(rows), old(nextId), sections, s);
      }
      assert sections[..|sections|] == sections;
    }

    /** The inner loop of `savePolicy`: `savePolicyLine` for each rule of one section. */
    method SaveSection(section: Section)
      requires Valid() && AllFitColumns(section.policy)
      modifies this
      ensures Valid()
      ensures rows == old(rows) + Stamped(old(nextId), EncodeAll(section.ptype, section.policy))
      ensures nextId == old(nextId) + |section.policy|
    {
      for r := 0 to |section.policy|
        invariant Valid()
        invariant rows == old(rows) + Stamped(old(nextId), EncodeAll(section.ptype, section.policy[..r]))
        invariant nextId == old(nextId) + r
      {
        ghost var before := rows;
        SavePolicyLine(section.ptype, section.policy[r]);
        SavedOneMoreRule(rows, before, old(rows), old(nextId), section.ptype, section.policy, r);
      }
      assert section.policy[..|section.policy|] == section.policy;
    }

    /** `loadPolicy` up to the engine: one line per row, in select order, made of the row's
        non-empty fields joined by ", " and trimmed. */
    method LoadPolicy() returns (lines: seq<string>)
      ensures |lines| == |rows|
      ensures forall i :: 0 <= i < |rows| ==> lines[i] == PolicyLine(rows[i])
    {
      lines := [];
      for i := 0 to |rows|
        invariant |lines| == i
        invariant forall j :: 0 <= j < i ==> lines[j] == PolicyLine(rows[j])
      {
        var line := PolicyLine(rows[i]);
        lines := lines + [line];
      }
    }

    /** `removePolicy`: deletes, by identity, every row the rule selects; all duplicates go and the
        other rows stay in their order. */
    method RemovePolicy(ptype: string, rule: seq<string>)
      requires Valid() && FitsColumns(rule)
      modifies this
      ensures Valid()
      ensures rows == Reject(old(rows), RuleQuery(ptype, rule))
      ensures forall x :: x in rows <==> x in old(rows) && !MatchesRule(x, ptype, rule)
      ensures nextId == old(nextId)
    {
      var instance := WhereRule(ptype, rule);
      var modelRows := Select(rows, instance);
      DeletingSelectedRows(rows, nextId, instance);
      DeleteSelected(modelRows);
      forall x
        ensures x in rows <==> x in old(rows) && !MatchesRule(x, ptype, rule)
      {
        RuleQueryMeaning(x, ptype, rule);
      }
    }

    /** `removePolicies`: `removePolicy` with each rule in turn, as one transaction. */
    method RemovePolicies(ptype: string, rules: seq<seq<string>>)
      requires Valid() && AllFitColumns(rules)
      modifies this
      ensures Valid()
      ensures rows == RemoveEach(old(rows), ptype, rules)
      ensures forall x :: x in rows <==> x in old(rows) && !MatchesAny(x, ptype, rules)
      ensures nextId == old(nextId)
    {
      for i := 0 to |rules|
        invariant Valid() && nextId == old(nextId)
        invariant RemoveEach(rows, ptype, rules[i..]) == RemoveEach(old(rows), ptype, rules)
      {
        assert rules[i..][1..] == rules[i + 1..];
        RemovePolicy(ptype, rules[i]);
      }
      assert rules[|rules|..] == [];
      RemoveEachKeepsUnmatched(old(rows), ptype, rules);
    }

    /** `removeFilteredPolicy`: deletes every row of the ptype whose columns agree with the
        non-empty filter values that fall in v0..v5. */
    method RemoveFilteredPolicy(ptype: string, fieldIndex: int, fieldValues: seq<string>)
      requires Valid()
      modifies this
      ensures Valid()
      ensures rows == Reject(old(rows), FilterQuery(ptype, fieldIndex, Lift(fieldValues)))
      ensures forall x :: x in rows <==> x in old(rows) && !MatchesFilter(x, ptype, fieldIndex, Lift(fieldValues))
      ensures nextId == old(nextId)
    {
      var instance := WhereFilter(ptype, fieldIndex, Lift(fieldValues));
      var modelRows := Select(rows, instance);
      DeletingSelectedRows(rows, nextId, instance);
      DeleteSelected(modelRows);
      forall x
        ensures x in rows <==> x in old(rows) && !MatchesFilter(x, ptype, fieldIndex, Lift(fieldValues))
      {
        FilterQueryMeaning(x, ptype, fieldIndex, Lift(fieldValues));
      }
    }

    /** `_removeFilteredPolicy`: the same deletion as `removeFilteredPolicy`, where a null filter
        value is a wildcard too; returns `filterRule` of each deleted row's v0..v5, in select order. */
    method RemoveFilteredPolicyCollect(ptype: string, fieldIndex: int, fieldValues: seq<Option<string>>)
      returns (removedRules: seq<seq<Option<string>>>)
      requires Valid()
      modifies this
      ensures Valid()
      ensures rows == Reject(old(rows), FilterQuery(ptype, fieldIndex, fieldValues))
      ensures forall x :: x in rows <==> x in old(rows) && !MatchesFilter(x, ptype, fieldIndex, fieldValues)
      ensures removedRules == RemovedRuleValues(Select(old(rows), FilterQuery(ptype, fieldIndex, fieldValues)))
      ensures nextId == old(nextId)
    {
      var instance := WhereFilter(ptype, fieldIndex, fieldValues);
      var selected := Select(rows, instance);
      DeletingSelectedRows(rows, nextId, instance);
      removedRules := DeleteCollecting(selected);
      forall x
        ensures x in rows <==> x in old(rows) && !MatchesFilter(x, ptype, fieldIndex, fieldValues)
      {
        FilterQueryMeaning(x, ptype, fieldIndex, fieldValues);
      }
    }

    /** The loop of `_removeFilteredPolicy`: for each selected row, record `filterRule` of its
        v0..v5 and delete it. */
    method DeleteCollecting(selected: seq<Row>) returns (removedRules: seq<seq<Option<string>>>)
      requires Valid()
      modifies this
      ensures Valid()
      ensures rows == WithoutIds(old(rows), IdsOf(selected))
      ensures removedRules == RemovedRuleValues(selected)
      ensures nextId == old(nextId)
    {
      removedRules := [];
      WithoutNoIds(rows);
      assert IdsOf(selected[..0]) == {};
      assert RemovedRuleValues(selected[..0]) == [];
      for k := 0 to |selected|
        invariant Valid() && nextId == old(nextId)
        invariant rows == WithoutIds(old(rows), IdsOf(selected[..k]))
        invariant removedRules == RemovedRuleValues(selected[..k])
      {
        var item := FilterRule(selected[k].v);
        removedRules := removedRules + [item];
        ReportingOneMore(selected, k);
        ghost var before := rows;
        DeleteById(selected[k].id);
        DeletingOneMore(rows, before, old(rows), selected, k);
      }
      assert selected[..|selected|] == selected;
    }

    /** `updatePolicy`: `find()` the first row the old rule selects, assign the new rule's values
        to its columns and `save()` it. With no such row, `find()` gives null and the call fails;
        `found` is false and the table is unchanged. */
    method UpdatePolicy(ptype: string, oldRule: seq<string>, newPolicy: seq<string>) returns (found: bool)
      requires Valid() && FitsColumns(newPolicy)
      modifies this
      ensures Valid()
      ensures found <==> UpdateRows(old(rows), ptype, oldRule, newPolicy).Some?
      ensures found ==> rows == UpdateRows(old(rows), ptype, oldRule, newPolicy).value
      ensures !found ==> rows == old(rows)
      ensures nextId == old(nextId)
    {
      var query := WhereRule(ptype, oldRule);
      var k := FirstMatch(rows, query);
      if k.None? {
        return false;
      }
      var instance := rows[k.value];
      assert instance in rows;
      var v := instance.v;
      for key := 0 to |newPolicy|
        invariant |v| == Width
        invariant forall c :: 0 <= c < Width ==> v[c] == if c < key then Some(newPolicy[c]) else instance.v[c]
      {
        v := v[key := Some(newPolicy[key])];
      }
      assert v == Overwritten(instance.v, newPolicy);
      var updated := rows[k.value := instance.(v := v)];
      SameShapeKeepsWellFormed(rows, updated, nextId);
      rows := updated;
      found := true;
    }

    /** `updatePolicies`: `updatePolicy(oldRules[i], newRules[i])` for each i in order, as one
        transaction. A pair without a new rule or without a matching row fails the call, and the
        transaction restores the table. */
    method UpdatePolicies(ptype: string, oldRules: seq<seq<string>>, newRules: seq<seq<string>>)
      returns (failure: Option<UpdateError>)
      requires Valid()
      requires forall i :: 0 <= i < |oldRules| && i < |newRules| ==> FitsColumns(newRules[i])
      modifies this
      ensures Valid()
      ensures match ApplyUpdates(old(rows), ptype, oldRules, newRules, 0)
        case Ok(r) => failure.None? && rows == r
        case Err(e) => failure == Some(e) && rows == old(rows)
      ensures nextId == old(nextId)
    {
      var snapshot := rows;
      for i := 0 to |oldRules|
        invariant Valid() && nextId == old(nextId)
        invariant ApplyUpdates(rows, ptype, oldRules, newRules, i) == ApplyUpdates(snapshot, ptype, oldRules, newRules, 0)
      {
        if i >= |newRules| {
          rows := snapshot;
          return Some(MissingNewRule(i));
        }
        var found := UpdatePolicy(ptype, oldRules[i], newRules[i]);
        if !found {
          rows := snapshot;
          return Some(NoMatchingRow(i));
        }
      }
      failure := None;
    }

    /** `updateFilteredPolicies`: in one transaction, delete the rows the filter selects and add
        the new rules; returns the deleted rules as `_removeFilteredPolicy` reports them. */
    method UpdateFilteredPolicies(ptype: string, newPolicies: seq<seq<string>>, fieldIndex: int, fieldValues: seq<string>)
      returns (oldRules: seq<seq<Option<string>>>)
      requires Valid() && AllFitColumns(newPolicies)
      modifies this
      ensures Valid()
      ensures oldRules == RemovedRuleValues(Select(old(rows), FilterQuery(ptype, fieldIndex, Lift(fieldValues))))
      ensures rows == Reject(old(rows), FilterQuery(ptype, fieldIndex, Lift(fieldValues)))
                      + Stamped(old(nextId), EncodeAll(ptype, newPolicies))
      ensures nextId == old(nextId) + |newPolicies|
    {
      oldRules := RemoveFilteredPolicyCollect(ptype, fieldIndex, Lift(fieldValues));
      AddPolicies(ptype, newPolicies);
    }
  }

  /** The column map `savePolicyLine` and `addPolicies` build: `ptype`, then `v<key>` for each
      key of the rule; the columns it does not set stay null. */
  method ColumnMap(ptype: string, rule: seq<string>) returns (col: Record)
    requires FitsColumns(rule)
    ensures col == Encode(ptype, rule)
  {
    var v: seq<Option<string>> := seq(Width, _ => None);
    for key := 0 to |rule|
      invariant |v| == Width
      invariant forall c :: 0 <= c < Width ==> v[c] == if c < key then Some(rule[c]) else None
    {
      v := v[key := Some(rule[key])];
    }
    col := Record(ptype, v);
  }

  /** The `where` calls of `removePolicy` and `updatePolicy`: the ptype, then `v<key> = value`
      for each key of the rule. */
  method WhereRule(ptype: string, rule: seq<string>) returns (q: Query)
    ensures q == RuleQuery(ptype, rule)
  {
    var conds: seq<Cond> := [];
    for key := 0 to |rule|
      invariant |conds| == key
      invariant forall j :: 0 <= j < key ==> conds[j] == Cond(j, rule[j])
    {
      conds := conds + [Cond(key, rule[key])];
    }
    q := Query(ptype, conds);
  }

  /** The `where` calls of the filtered removals: for each column p in 0..5 that the window
      covers and whose filter value is neither empty nor null, `v<p> = value`. */
  method WhereFilter(ptype: string, fieldIndex: int, fieldValues: seq<Option<string>>) returns (q: Query)
    ensures q == FilterQuery(ptype, fieldIndex, fieldValues)
  {
    var conds: seq<Cond> := [];
    for p := 0 to Width
      invariant conds + FilterConds(fieldIndex, fieldValues, p) == FilterConds(fieldIndex, fieldValues, 0)
    {
      if fieldIndex <= p < fieldIndex + |fieldValues| {
        if !IsBlank(fieldValues[p - fieldIndex]) {
          conds := conds + [Cond(p, fieldValues[p - fieldIndex].value)];
        }
      }
    }
    q := Query(ptype, conds);
  }

  /** `filterRule`: scan back from the end for the last value that is neither empty nor null and
      keep the rule up to it. */
  method FilterRule(rule: seq<Option<string>>) returns (r: seq<Option<string>>)
    ensures r == TrimTrailingBlanks(rule)
  {
    var i := |rule| - 1;
    assert rule[..|rule|] == rule;
    while i >= 0 && IsBlank(rule[i])
      invariant -1 <= i < |rule|
      invariant TrimTrailingBlanks(rule[..i + 1]) == TrimTrailingBlanks(rule)
    {
      assert rule[..i + 1][..i] == rule[..i];
      i := i - 1;
    }
    r := rule[..i + 1];
  }

  lemma {:induction false} EncodeAllSnoc(ptype: string, rules: seq<seq<string>>, r: nat)
    requires AllFitColumns(rules) && r < |rules|
    ensures EncodeAll(ptype, rules[..r + 1]) == EncodeAll(ptype, rules[..r]) + [Encode(ptype, rules[r])]
  {
    var a := EncodeAll(ptype, rules[..r + 1]);
    var b := EncodeAll(ptype, rules[..r]) + [Encode(ptype, rules[r])];
    assert |a| == |b|;
    forall j | 0 <= j < |a|
      ensures a[j] == b[j]
    {
      assert rules[..r + 1][j] == rules[j];
    }
  }

  lemma SavedOneMoreSection(now: seq<Row>, before: seq<Row>, start: seq<Row>, first: nat, sections: seq<Section>, s: nat)
    requires SectionsFitColumns(sections) && s < |sections|
    requires before == start + Stamped(first, EncodeSections(sections[..s]))
    requires now == before + Stamped(first + |EncodeSections(sections[..s])|, EncodeAll(sections[s].ptype, sections[s].policy))
    ensures now == start + Stamped(first, EncodeSections(sections[..s + 1]))
    ensures |EncodeSections(sections[..s + 1])| == |EncodeSections(sections[..s])| + |sections[s].policy|
  {
    var saved := EncodeSections(sections[..s]);
    var added := EncodeAll(sections[s].ptype, sections[s].policy);
    EncodeSectionsSnoc(sections, s);
    StampedStep(now, before, start, first, saved, added);
  }

  /** Stamping two batches one after the other stamps their concatenation. */
  lemma StampedStep(now: seq<Row>, before: seq<Row>, start: seq<Row>, first: nat, saved: seq<Record>, added: seq<Record>)
    requires before == start + Stamped(first, saved)
    requires now == before + Stamped(first + |saved|, added)
    ensures now == start + Stamped(first, saved + added)
  {
    StampedAppend(first, saved, added);
  }

  lemma EncodeSectionsSnoc(sections: seq<Section>, s: nat)
    requires SectionsFitColumns(sections) && s < |sections|
    ensures SectionsFitColumns(sections[..s]) && SectionsFitColumns(sections[..s + 1])
    ensures EncodeSections(sections[..s + 1])
      == EncodeSections(sections[..s]) + EncodeAll(sections[s].ptype, sections[s].policy)
  {
    assert sections[..s + 1][..s] == sections[..s];
  }

  lemma DeletingOneMore(now: seq<Row>, before: seq<Row>, start: seq<Row>, selected: seq<Row>, k: nat)
    requires k < |selected|
    requires before == WithoutIds(start, IdsOf(selected[..k]))
    requires now == WithoutIds(before, {selected[k].id})
    ensures now == WithoutIds(start, IdsOf(selected[..k + 1]))
  {
    WithoutIdsAddOne(start, IdsOf(selected[..k]), selected[k].id);
    IdsOfPrefix(selected, k);
  }

  lemma ReportingOneMore(selected: seq<Row>, k: nat)
    requires k < |selected|
    ensures RemovedRuleValues(selected[..k + 1]) == RemovedRuleValues(selected[..k]) + [TrimTrailingBlanks(selected[k].v)]
  {
    var a := RemovedRuleValues(selected[..k + 1]);
    var b := RemovedRuleValues(selected[..k]) + [TrimTrailingBlanks(selected[k].v)];
    assert |a| == |b|;
    forall j | 0 <= j < |a|
      ensures a[j] == b[j]
    {
      assert selected[..k + 1][j] == selected[j];
    }
  }

  lemma SavedOneMoreRule(now: seq<Row>, before: seq<Row>, start: seq<Row>, first: nat, ptype: string, policy: seq<seq<string>>, r: nat)
    requires AllFitColumns(policy) && r < |policy|
    requires before == start + Stamped(first, EncodeAll(ptype, policy[..r]))
    requires now == before + [Row(first + r, ptype, Encode(ptype, policy[r]).v)]
    ensures now == start + Stamped(first, EncodeAll(ptype, policy[..r + 1]))
  {
    var saved := EncodeAll(ptype, policy[..r]);
    var rec := Encode(ptype, policy[r]);
    EncodeAllSnoc(ptype, policy, r);
    StampedOneStep(now, before, start, first, saved, rec);
  }

  /** Stamping one more column map after a batch stamps the longer batch. */
  lemma StampedOneStep(now: seq<Row>, before: seq<Row>, start: seq<Row>, first: nat, saved: seq<Record>, rec: Record)
    requires before == start + Stamped(first, saved)
    requires now == before + [Row(first + |saved|, rec.ptype, rec.v)]
    ensures now == start + Stamped(first, saved + [rec])
  {
    StampedSnoc(first, saved, rec);
  }

  lemma StampedSnoc(first: nat, recs: seq<Record>, rec: Record)
    ensures Stamped(first, recs + [rec]) == Stamped(first, recs) + [Row(first + |recs|, rec.ptype, rec.v)]
  {
  }

  lemma StampedAppend(first: nat, a: seq<Record>, b: seq<Record>)
    ensures Stamped(first, a + b) == Stamped(first, a) + Stamped(first + |a|, b)
  {
  }
}

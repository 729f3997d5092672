/** Rows of the rule table, how a rule becomes a row, and the `where` queries the adapter builds. */
module RuleRows {
  import opened Fields

  /** The column map handed to the ORM before a row exists: `ptype` and v0..v5, no id yet. */
  datatype Record = Record(ptype: string, v: seq<Option<string>>)

  /** A stored row: the identity key the table assigns, `ptype` and the columns v0..v5. */
  datatype Row = Row(id: nat, ptype: string, v: seq<Option<string>>)

  /** A policy section of the engine model: one ptype and its rules, in the model's order. */
  datatype Section = Section(ptype: string, policy: seq<seq<string>>)

  predicate FitsColumns(rule: seq<string>)
  {
    |rule| <= Width
  }

  predicate AllFitColumns(rules: seq<seq<string>>)
  {
    forall i :: 0 <= i < |rules| ==> FitsColumns(rules[i])
  }

  predicate SectionsFitColumns(sections: seq<Section>)
  {
    forall i :: 0 <= i < |sections| ==> AllFitColumns(sections[i].policy)
  }

  /** The column map of `savePolicyLine` and of each entry of `addPolicies`:
      `ptype`, then `v<key> := rule[key]` for every key of the rule; the other columns stay NULL. */
  function Encode(ptype: string, rule: seq<string>): (rec: Record)
    requires FitsColumns(rule)
    ensures rec.ptype == ptype && |rec.v| == Width
    ensures forall i :: 0 <= i < |rule| ==> rec.v[i] == Some(rule[i])
    ensures forall i :: |rule| <= i < Width ==> rec.v[i] == None
  {
    Record(ptype, Lift(rule) + seq(Width - |rule|, _ => None))
  }

  /** The column maps of a batch, one per rule and in the order of the rules. */
  function EncodeAll(ptype: string, rules: seq<seq<string>>): (recs: seq<Record>)
    requires AllFitColumns(rules)
    ensures |recs| == |rules|
    ensures forall i :: 0 <= i < |rules| ==> recs[i] == Encode(ptype, rules[i])
  {
    if rules == [] then [] else [Encode(ptype, rules[0])] + EncodeAll(ptype, rules[1..])
  }

  /** The column maps `savePolicy` writes for a list of sections: section by section, rule by rule. */
  function EncodeSections(sections: seq<Section>): seq<Record>
    requires SectionsFitColumns(sections)
  {
    if sections == [] then []
    else
      var last := sections[|sections| - 1];
      EncodeSections(sections[..|sections| - 1]) + EncodeAll(last.ptype, last.policy)
  }

  /** Number of rules in a list of sections. */
  function RuleCount(sections: seq<Section>): nat
  {
    if sections == [] then 0 else RuleCount(sections[..|sections| - 1]) + |sections[|sections| - 1].policy|
  }

  lemma {:induction false} EncodeSectionsCount(sections: seq<Section>)
    requires SectionsFitColumns(sections)
    ensures |EncodeSections(sections)| == RuleCount(sections)
  {
    if sections != [] {
      EncodeSectionsCount(sections[..|sections| - 1]);
    }
  }

  /** Rows the table creates for column maps inserted in order, starting at identity `first`. */
  function Stamped(first: nat, recs: seq<Record>): (rows: seq<Row>)
    ensures |rows| == |recs|
  {
    seq(|recs|, i requires 0 <= i < |recs| => Row(first + i, recs[i].ptype, recs[i].v))
  }

  /** One `where('v<column>', value)` condition of the query builder. */
  datatype Cond = Cond(column: nat, value: string)

  /** A query `where('ptype', ptype)` followed by the conditions in `conds`. */
  datatype Query = Query(ptype: string, conds: seq<Cond>)

  /** Column v<column> of the row holds `value`. */
  predicate ColumnIs(row: Row, column: int, value: Option<string>)
  {
    0 <= column < |row.v| && row.v[column] == value
  }

  /** A row is selected by a query when its ptype and every conditioned column are equal to the
      given strings; an SQL equality never holds of a NULL column. */
  predicate Satisfies(row: Row, q: Query)
  {
    row.ptype == q.ptype &&
    forall k :: 0 <= k < |q.conds| ==> ColumnIs(row, q.conds[k].column, Some(q.conds[k].value))
  }

  /** The selection of `removePolicy` and `updatePolicy`: the ptype matches and every supplied
      position i has `v_i == rule[i]`; positions the rule does not supply are unconstrained. */
  predicate MatchesRule(row: Row, ptype: string, rule: seq<string>)
  {
    row.ptype == ptype &&
    forall i :: 0 <= i < |rule| ==> ColumnIs(row, i, Some(rule[i]))
  }

  /** The positions a field filter constrains: p among v0..v5, inside the window that starts at
      `fieldIndex`, and whose filter value is neither empty nor null (those are wildcards). */
  predicate Constrains(fieldIndex: int, values: seq<Option<string>>, p: int)
  {
    0 <= p < Width && fieldIndex <= p < fieldIndex + |values| && !IsBlank(values[p - fieldIndex])
  }

  /** The selection of the filtered removals: the ptype matches and every constrained position
      equals its filter value. */
  predicate MatchesFilter(row: Row, ptype: string, fieldIndex: int, values: seq<Option<string>>)
  {
    row.ptype == ptype &&
    forall p :: 0 <= p < Width && Constrains(fieldIndex, values, p) ==> ColumnIs(row, p, values[p - fieldIndex])
  }

  /** The query `removePolicy` and `updatePolicy` build: one condition per key of the rule. */
  function RuleQuery(ptype: string, rule: seq<string>): Query
  {
    Query(ptype, seq(|rule|, i requires 0 <= i < |rule| => Cond(i, rule[i])))
  }

  /** The conditions the filtered removals add while `p` runs from `from` up to 5. */
  function FilterConds(fieldIndex: int, values: seq<Option<string>>, from: nat): seq<Cond>
    requires from <= Width
    decreases Width - from
  {
    if from == Width then []
    else if Constrains(fieldIndex, values, from) then
      [Cond(from, values[from - fieldIndex].value)] + FilterConds(fieldIndex, values, from + 1)
    else FilterConds(fieldIndex, values, from + 1)
  }

  /** The query the filtered removals build. */
  function FilterQuery(ptype: string, fieldIndex: int, values: seq<Option<string>>): Query
  {
    Query(ptype, FilterConds(fieldIndex, values, 0))
  }

  /** The rule query selects exactly the rows that match the rule. */
  lemma {:induction false} RuleQueryMeaning(row: Row, ptype: string, rule: seq<string>)
    ensures Satisfies(row, RuleQuery(ptype, rule)) <==> MatchesRule(row, ptype, rule)
  {
    if MatchesRule(row, ptype, rule) {
      MatchingRowSatisfiesRuleQuery(row, ptype, rule);
    }
    if Satisfies(row, RuleQuery(ptype, rule)) {
      RuleQuerySelectsMatchingRow(row, ptype, rule);
    }
  }

  lemma {:induction false} MatchingRowSatisfiesRuleQuery(row: Row, ptype: string, rule: seq<string>)
    requires MatchesRule(row, ptype, rule)
    ensures Satisfies(row, RuleQuery(ptype, rule))
  {
    var q := RuleQuery(ptype, rule);
    forall k | 0 <= k < |q.conds|
      ensures ColumnIs(row, q.conds[k].column, Some(q.conds[k].value))
    {
      assert q.conds[k] == Cond(k, rule[k]);
    }
  }

  lemma {:induction false} RuleQuerySelectsMatchingRow(row: Row, ptype: string, rule: seq<string>)
    requires Satisfies(row, RuleQuery(ptype, rule))
    ensures MatchesRule(row, ptype, rule)
  {
    var q := RuleQuery(ptype, rule);
    forall i: int | 0 <= i < |rule|
      ensures ColumnIs(row, i, Some(rule[i]))
    {
      assert q.conds[i] == Cond(i, rule[i]);
    }
  }

  /** The conditions from position `from` on are exactly one per constrained position. */
  lemma {:induction false} FilterCondsMeaning(fieldIndex: int, values: seq<Option<string>>, from: nat, c: Cond)
    requires from <= Width
    ensures c in FilterConds(fieldIndex, values, from) <==>
      from <= c.column && Constrains(fieldIndex, values, c.column) &&
      values[c.column - fieldIndex] == Some(c.value)
    decreases Width - from
  {
    if from < Width {
      FilterCondsMeaning(fieldIndex, values, from + 1, c);
    }
  }

  /** The filter query selects exactly the rows that match the filter. */
  lemma {:induction false} FilterQueryMeaning(row: Row, ptype: string, fieldIndex: int, values: seq<Option<string>>)
    ensures Satisfies(row, FilterQuery(ptype, fieldIndex, values)) <==> MatchesFilter(row, ptype, fieldIndex, values)
  {
    if MatchesFilter(row, ptype, fieldIndex, values) {
      MatchingRowSatisfiesFilterQuery(row, ptype, fieldIndex, values);
    }
    if Satisfies(row, FilterQuery(ptype, fieldIndex, values)) {
      FilterQuerySelectsMatchingRow(row, ptype, fieldIndex, values);
    }
  }

  lemma {:induction false} MatchingRowSatisfiesFilterQuery(row: Row, ptype: string, fieldIndex: int, values: seq<Option<string>>)
    requires MatchesFilter(row, ptype, fieldIndex, values)
    ensures Satisfies(row, FilterQuery(ptype, fieldIndex, values))
  {
    MatchingRowSatisfiesFilterConds(row, ptype, fieldIndex, values, 0);
  }

  lemma {:induction false} MatchingRowSatisfiesFilterConds(row: Row, ptype: string, fieldIndex: int, values: seq<Option<string>>, from: nat)
    requires from <= Width
    requires MatchesFilter(row, ptype, fieldIndex, values)
    ensures forall c :: c in FilterConds(fieldIndex, values, from) ==> ColumnIs(row, c.column, Some(c.value))
  {
    forall c | c in FilterConds(fieldIndex, values, from)
      ensures ColumnIs(row, c.column, Some(c.value))
    {
      FilterCondsMeaning(fieldIndex, values, from, c);
      assert Constrains(fieldIndex, values, c.column);
    }
  }

  lemma {:induction false} FilterQuerySelectsMatchingRow(row: Row, ptype: string, fieldIndex: int, values: seq<Option<string>>)
    requires Satisfies(row, FilterQuery(ptype, fieldIndex, values))
    ensures MatchesFilter(row, ptype, fieldIndex, values)
  {
    var conds := FilterConds(fieldIndex, values, 0);
    forall p | 0 <= p < Width && Constrains(fieldIndex, values, p)
      ensures ColumnIs(row, p, values[p - fieldIndex])
    {
      var c := Cond(p, values[p - fieldIndex].value);
      FilterCondsMeaning(fieldIndex, values, 0, c);
      var k :| 0 <= k < |conds| && conds[k] == c;
    }
  }

  /** A row written for a rule is selected by that rule, and by any prefix of it. */
  lemma EncodedRowMatchesRule(id: nat, ptype: string, rule: seq<string>, n: nat)
    requires FitsColumns(rule) && n <= |rule|
    ensures MatchesRule(Row(id, ptype, Encode(ptype, rule).v), ptype, rule[..n])
  {
  }

  /** A filter whose values are all empty or null selects every row of the ptype. */
  lemma {:induction false} WildcardFilterMatchesPtype(row: Row, ptype: string, fieldIndex: int, values: seq<Option<string>>)
    requires forall k :: 0 <= k < |values| ==> IsBlank(values[k])
    ensures MatchesFilter(row, ptype, fieldIndex, values) <==> row.ptype == ptype
  {
    forall p | 0 <= p < Width && fieldIndex <= p < fieldIndex + |values|
      ensures !Constrains(fieldIndex, values, p)
    {
      assert IsBlank(values[p - fieldIndex]);
    }
  }

  /** `removeFilteredPolicy` with `fieldIndex` 0 and a complete rule as filter selects the same rows
      as `removePolicy` with that rule, when the rule has no empty value. */
  lemma FullFilterIsRuleMatch(row: Row, ptype: string, rule: seq<string>)
    requires FitsColumns(rule) && |row.v| == Width
    requires forall k :: 0 <= k < |rule| ==> rule[k] != ""
    ensures MatchesFilter(row, ptype, 0, Lift(rule)) <==> MatchesRule(row, ptype, rule)
  {
    if MatchesFilter(row, ptype, 0, Lift(rule)) {
      forall i | 0 <= i < |rule|
        ensures ColumnIs(row, i, Some(rule[i]))
      {
        assert Constrains(0, Lift(rule), i);
      }
    }
  }

  /** In `_removeFilteredPolicy` a null filter value is a wildcard, just like the empty string:
      both build the same query. */
  lemma NullFilterValueIsWildcard(ptype: string, fieldIndex: int, values: seq<Option<string>>, i: nat)
    requires i < |values|
    ensures FilterQuery(ptype, fieldIndex, values[i := None]) == FilterQuery(ptype, fieldIndex, values[i := Some("")])
  {
    NullFilterValueIsWildcardFrom(fieldIndex, values, i, 0);
  }

  lemma {:induction false} NullFilterValueIsWildcardFrom(fieldIndex: int, values: seq<Option<string>>, i: nat, from: nat)
    requires i < |values| && from <= Width
    ensures FilterConds(fieldIndex, values[i := None], from) == FilterConds(fieldIndex, values[i := Some("")], from)
    decreases Width - from
  {
    if from < Width {
      NullFilterValueIsWildcardFrom(fieldIndex, values, i, from + 1);
    }
  }

  /** Filter values whose position would fall beyond v5 add no condition: once the window reaches
      v5, appending values leaves the query unchanged. */
  lemma FilterIgnoresValuesBeyondV5(ptype: string, fieldIndex: int, values: seq<Option<string>>, extra: seq<Option<string>>)
    requires fieldIndex + |values| >= Width
    ensures FilterQuery(ptype, fieldIndex, values + extra) == FilterQuery(ptype, fieldIndex, values)
  {
    FilterIgnoresValuesBeyondV5From(fieldIndex, values, extra, 0);
  }

  lemma {:induction false} FilterIgnoresValuesBeyondV5From(fieldIndex: int, values: seq<Option<string>>, extra: seq<Option<string>>, from: nat)
    requires fieldIndex + |values| >= Width && from <= Width
    ensures FilterConds(fieldIndex, values + extra, from) == FilterConds(fieldIndex, values, from)
    decreases Width - from
  {
    if from < Width {
      FilterIgnoresValuesBeyondV5From(fieldIndex, values, extra, from + 1);
      if fieldIndex <= from {
        assert (values + extra)[from - fieldIndex] == values[from - fieldIndex];
      }
    }
  }
}

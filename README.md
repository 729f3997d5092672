# Casbin database adapter: a Dafny model

This project models `DatabaseAdapter`, the Casbin persistence adapter of `teamones-casbin`. It
stores access-control policy rules in one relational table. Each row of that table has:

- an `id` (the code only reads `$model['id']`; the model assumes the table's usual
  auto-increment key, so each insert gets the next, larger identity);
- a `ptype` (`p`, `g`, `p2`, ...);
- six nullable string columns `v0`..`v5`.

The adapter writes rules into rows with `savePolicyLine`, `addPolicy`, `addPolicies` and
`savePolicy`. It reads rows back as policy text lines with `loadPolicy`. It deletes rows by exact
rule with `removePolicy` and `removePolicies`, and by a field filter with `removeFilteredPolicy`
and `_removeFilteredPolicy`. It trims trailing empty values with `filterRule`. It updates rows in
place with `updatePolicy` and `updatePolicies`, and replaces the rows a filter selects with
`updateFilteredPolicies`.

The modules are:

- `Fields`: column values (`Option<string>`). It holds PHP's notion of an empty value, where null
  and `''` are both empty because `'' != null` is false. It also holds the specification of
  `filterRule` (`TrimTrailingBlanks`).
- `RuleRows`: rows and column maps, and how a rule is encoded into columns. It models the ORM
  query the adapter builds as a list of `v<p> = value` conditions. It relates that query to the
  semantic selections: `MatchesRule` is exact match on the supplied positions, and
  `MatchesFilter` is the windowed filter where an empty value is a wildcard.
- `TableSpec`: the table as a value. It defines selection, deletion by identity, and the table
  invariant, which rests on the assumed auto-increment key: identities strictly increase and stay
  below the next auto-increment value, and every row has six columns. It also gives the specifications of the update and batch operations.
- `PolicyText`: the line builder of `loadPolicy`. It keeps the non-empty fields (interior ones
  are dropped too), joins them with `", "` and applies PHP `trim`. It also holds `explode(', ')`,
  which stands in for the engine's reading of a line and serves as the partner of the builder
  in the read-back lemmas.
- `DatabaseAdapter`: class `Adapter`, whose fields are the table (`rows`, in select order) and
  the auto-increment counter (`nextId`). Each adapter operation is a method that changes those
  fields step by step, as the PHP code does. Each is proved against the specification functions.

Transactions (`Db::transaction`) are modelled as atomic methods. In `updatePolicies`, a failing
pair restores the snapshot taken at the start.

`updatePolicy` does not check the result of `find()`. When no row matches, the code writes a
property on `null` and calls `save()` on it, so the call fails. The model follows the code and
does not treat this case as a silent no-op: `UpdatePolicy` reports `found == false` and leaves
the table as it was. Inside `updatePolicies` such a failure, or a missing `newRules[i]`, aborts
the whole batch.

## Model

| member | source | states |
|---|---|---|
| `Fields.IsBlank` | src/adapters/DatabaseAdapter.php:69-71 | defines the values the adapter treats as empty, null and `''` (the negation of the `array_filter` callback, and of the tests at lines 150, 175 and 202) |
| `Fields.TrimTrailingBlanks` | src/adapters/DatabaseAdapter.php:169-181 | defines what `filterRule` returns: the rule with its run of trailing empty or null values removed; its properties are stated by `TrimTrailingBlanksSpec` |
| `Fields.TrimTrailingBlanksSpec` | src/adapters/DatabaseAdapter.php:169-181 | the result of `filterRule` is a prefix of the rule, is empty or ends in a value that is neither empty nor null, and everything it drops is empty or null |
| `Fields.TrimTrailingBlanksAllBlank` | src/adapters/DatabaseAdapter.php:173-180 | a row whose columns are all empty or null is reported as the empty rule |
| `Fields.TrimTrailingBlanksIdempotent` | src/adapters/DatabaseAdapter.php:169-181 | applying `filterRule` twice gives the same result as applying it once |
| `Fields.TrimTrailingBlanksKeepsInterior` | src/adapters/DatabaseAdapter.php:173-180 | only the trailing empty values are cut; empty values before the last non-empty one are kept |
| `RuleRows.Encode` | src/adapters/DatabaseAdapter.php:47-50 | the column map of a rule has the ptype, `v<i> = rule[i]` for every supplied i, and null in the other columns of v0..v5 |
| `RuleRows.EncodeAll` | src/adapters/DatabaseAdapter.php:234-241 | `addPolicies` builds one column map per rule, in the order of the rules |
| `RuleRows.EncodeSections` | src/adapters/DatabaseAdapter.php:83-93 | defines the column maps `savePolicy` writes: each section's rules encoded in order, sections in order; its size is stated by `EncodeSectionsCount` |
| `RuleRows.Stamped` | src/adapters/DatabaseAdapter.php:52 | the rows the table creates for column maps inserted one by one: one row per map, with consecutive identities from the next auto-increment value |
| `RuleRows.EncodeSectionsCount` | src/adapters/DatabaseAdapter.php:83-93 | `savePolicy` writes exactly one row per rule of the sections |
| `RuleRows.Satisfies` | src/adapters/DatabaseAdapter.php:120-126 | defines when a row satisfies a built query: the ptype `where` and every `v<p> = value` condition hold |
| `RuleRows.MatchesRule` | src/adapters/DatabaseAdapter.php:118-126 | defines the selection of `removePolicy` and `updatePolicy`: same ptype and `v<i> = rule[i]` at every supplied position |
| `RuleRows.Constrains` | src/adapters/DatabaseAdapter.php:148-150 | defines the positions a filter conditions: p in 0..5, inside the window from `fieldIndex`, with a filter value that is neither empty nor null (the two nested tests, also at lines 200-202) |
| `RuleRows.MatchesFilter` | src/adapters/DatabaseAdapter.php:145-154 | defines the selection of the filtered removals: same ptype and every constrained column equal to its filter value |
| `RuleRows.RuleQuery` | src/adapters/DatabaseAdapter.php:120-124 | defines the query `removePolicy` and `updatePolicy` build, one condition per key of the rule; related to `MatchesRule` by `RuleQueryMeaning` |
| `RuleRows.FilterQuery` | src/adapters/DatabaseAdapter.php:147-154 | defines the query the filtered removals build; related to `MatchesFilter` by `FilterQueryMeaning` |
| `RuleRows.RuleQueryMeaning` | src/adapters/DatabaseAdapter.php:120-126 | the query built from a rule selects a row if and only if the ptype matches and `v<i> = rule[i]` for every supplied position; other positions are unconstrained |
| `RuleRows.FilterCondsMeaning` | src/adapters/DatabaseAdapter.php:148-154 | the filter adds a condition on a column exactly when the column is in v0..v5, inside the window starting at `fieldIndex`, and its filter value is neither empty nor null |
| `RuleRows.FilterQueryMeaning` | src/adapters/DatabaseAdapter.php:147-156 | the filter query selects a row if and only if the ptype matches and every constrained column equals its filter value |
| `RuleRows.EncodedRowMatchesRule` | src/adapters/DatabaseAdapter.php:45-53 | a row saved for a rule is selected by that rule and by every prefix of it |
| `RuleRows.WildcardFilterMatchesPtype` | src/adapters/DatabaseAdapter.php:148-153 | a filter whose values are all empty or null selects every row of the ptype |
| `RuleRows.FullFilterIsRuleMatch` | src/adapters/DatabaseAdapter.php:145-154 | with `fieldIndex` 0 and a rule without empty values as filter, the filter selects the same rows as the rule |
| `RuleRows.NullFilterValueIsWildcard` | src/adapters/DatabaseAdapter.php:200-206 | in `_removeFilteredPolicy` a null filter value builds the same query as an empty one, so it is a wildcard |
| `RuleRows.FilterIgnoresValuesBeyondV5` | src/adapters/DatabaseAdapter.php:148-149 | filter values whose position would fall beyond v5 add no condition |
| `TableSpec.Select` | src/adapters/DatabaseAdapter.php:126 | `select()` returns exactly the rows the query selects, and no more of them than the table holds |
| `TableSpec.Reject` | src/adapters/DatabaseAdapter.php:128-130 | what remains after deleting a selection holds exactly the rows the query does not select |
| `TableSpec.WithoutIds` | src/adapters/DatabaseAdapter.php:129 | after `where('id', id)->delete()` exactly the rows with the given identities are gone |
| `TableSpec.WithoutIdsKeepsWellFormed` | src/adapters/DatabaseAdapter.php:128-130 | deleting rows by identity keeps the table invariant |
| `TableSpec.DeletingSelectedRows` | src/adapters/DatabaseAdapter.php:126-130 | since identities are unique, deleting each selected row by its identity removes exactly the selected rows and keeps the others in order |
| `TableSpec.AppendStampedKeepsWellFormed` | src/adapters/DatabaseAdapter.php:242 | inserting rows with fresh consecutive identities keeps the table invariant |
| `TableSpec.SelectRejectPartition` | src/adapters/DatabaseAdapter.php:126-130 | the deleted rows and the remaining rows together are the old table, duplicates included |
| `TableSpec.RemovedRuleValues` | src/adapters/DatabaseAdapter.php:208-215 | the reported list has one entry per deleted row, in select order: `filterRule` of its v0..v5 |
| `TableSpec.EncodedRuleReportedBack` | src/adapters/DatabaseAdapter.php:208-210 | a row saved for a rule whose last value is non-empty is reported back as exactly that rule |
| `TableSpec.FirstMatch` | src/adapters/DatabaseAdapter.php:316 | `find()` gives the first row in select order that the query selects, or nothing when no row is selected |
| `TableSpec.Overwritten` | src/adapters/DatabaseAdapter.php:318-321 | defines the columns after `$instance->v<key> = value` for every key of the new rule: supplied positions take the new value, the others keep theirs |
| `TableSpec.UpdateRows` | src/adapters/DatabaseAdapter.php:310-324 | defines `updatePolicy` on the table as a value: the first matching row gets the new values, or the update fails; its properties are stated by `UpdateRowsFailsIffNoMatch` and `UpdateRowsChangesFirstMatch` |
| `TableSpec.UpdateRowsFailsIffNoMatch` | src/adapters/DatabaseAdapter.php:312-316 | the update fails exactly when no row matches the ptype and the old rule |
| `TableSpec.UpdateRowsChangesFirstMatch` | src/adapters/DatabaseAdapter.php:310-324 | only the first matching row changes, and in it only the columns the new rule supplies; its identity, its ptype, its other columns and all other rows are unchanged |
| `TableSpec.ApplyUpdates` | src/adapters/DatabaseAdapter.php:254-261 | defines `updatePolicies` on the table as a value: the pairs are applied in index order, and the first pair without a new rule or without a matching row fails the batch with its index |
| `TableSpec.ApplyUpdatesNeedsEveryNewRule` | src/adapters/DatabaseAdapter.php:257-258 | with fewer new rules than old rules the batch update fails |
| `TableSpec.ApplyUpdatesKeepsIdentities` | src/adapters/DatabaseAdapter.php:254-261 | a successful batch update keeps every row in place with its identity, its ptype and its six columns |
| `TableSpec.SameShapeKeepsWellFormed` | src/adapters/DatabaseAdapter.php:318-323 | overwriting column values in place keeps the table invariant |
| `TableSpec.RemoveEach` | src/adapters/DatabaseAdapter.php:290-297 | defines `removePolicies` on the table as a value: `removePolicy` for each rule in turn; related to `KeepUnmatched` by `RemoveEachKeepsUnmatched` |
| `TableSpec.KeepUnmatched` | src/adapters/DatabaseAdapter.php:290-297 | the rows left after removing a list of rules are exactly the rows that none of the rules match |
| `TableSpec.RemoveEachKeepsUnmatched` | src/adapters/DatabaseAdapter.php:290-297 | removing rule by rule leaves, in table order, exactly the rows no rule of the list matches |
| `PolicyText.RowFields` | src/adapters/DatabaseAdapter.php:64 | defines the fields `loadPolicy` selects from a row: ptype, then v0..v5 |
| `PolicyText.Join` | src/adapters/DatabaseAdapter.php:69 | defines `implode(', ', parts)`; inverted by `Explode` as stated by `ExplodeJoin` |
| `PolicyText.Trim` | src/adapters/DatabaseAdapter.php:72 | defines PHP `trim` as trimming the end and then the start; its properties are stated by `TrimLeavesCleanEdges` and `TrimKeepsCleanString` |
| `PolicyText.PolicyLine` | src/adapters/DatabaseAdapter.php:69-72 | defines the line `loadPolicy` hands over for a row: the non-empty fields among ptype and v0..v5, joined by `", "` and trimmed; read back by `LineReadsBackKeptValues` |
| `PolicyText.KeptValues` | src/adapters/DatabaseAdapter.php:69-71 | the values kept for a line are exactly the fields that are neither null nor empty |
| `PolicyText.TrimEndSpec` | src/adapters/DatabaseAdapter.php:72 | `trim` removes trailing spaces, tabs, newlines, carriage returns, NUL and vertical tabs and nothing else |
| `PolicyText.TrimStartSpec` | src/adapters/DatabaseAdapter.php:72 | `trim` removes the same characters from the start and nothing else |
| `PolicyText.TrimLeavesCleanEdges` | src/adapters/DatabaseAdapter.php:72 | a trimmed line neither starts nor ends with a trimmed character |
| `PolicyText.TrimKeepsCleanString` | src/adapters/DatabaseAdapter.php:72 | trimming a line that has clean edges leaves it unchanged |
| `PolicyText.KeptValuesSkipsBlank` | src/adapters/DatabaseAdapter.php:69-71 | an empty or null field anywhere, interior ones included, is dropped from the line |
| `PolicyText.KeptValuesIgnoresBlankTail` | src/adapters/DatabaseAdapter.php:69-71 | trailing empty fields do not change the line, so the line agrees with `filterRule` |
| `PolicyText.KeptValuesOfBlanks` | src/adapters/DatabaseAdapter.php:69-71 | a row of empty fields contributes no value to the line |
| `PolicyText.KeptValuesNonEmpty` | src/adapters/DatabaseAdapter.php:69-71 | no value kept for a line is empty |
| `PolicyText.ExplodeJoin` | src/adapters/DatabaseAdapter.php:69-72 | splitting a `", "`-joined line gives back the joined values when none of them holds a comma |
| `PolicyText.JoinEdges` | src/adapters/DatabaseAdapter.php:69-72 | a line joined from non-empty values starts with the first value's first character and ends with the last value's last character |
| `PolicyText.LineReadsBackKeptValues` | src/adapters/DatabaseAdapter.php:62-74 | the line `loadPolicy` builds for a row splits back into the row's non-empty fields, ptype first |
| `PolicyText.KeptValuesOfEncodedRule` | src/adapters/DatabaseAdapter.php:45-53 | the fields kept from a row saved for any rule are the ptype (when not empty) followed by the rule's non-empty values in order; the null columns after the rule add nothing |
| `PolicyText.SavedRuleReadsBack` | src/adapters/DatabaseAdapter.php:62-74 | a rule saved by `savePolicyLine` loads back as the ptype followed by the rule's non-empty values in order, and as exactly the ptype and the rule when no value is empty (all values plain) |
| `PolicyText.InteriorEmptyValueShiftsLine` | src/adapters/DatabaseAdapter.php:69-72 | for any rules `a` and `b`, the rule `a + [""] + b` loads as the same line as `a + b`: an empty value at any position is dropped and the later values move one place left |
| `DatabaseAdapter.Adapter.constructor` | src/adapters/DatabaseAdapter.php:34-37 | the adapter wraps the given table as it is, with whatever rows it already holds; the table invariant holds from the start |
| `DatabaseAdapter.Adapter.Create` | src/adapters/DatabaseAdapter.php:52 | `create()` appends one row with a fresh identity and keeps the table invariant |
| `DatabaseAdapter.Adapter.InsertAll` | src/adapters/DatabaseAdapter.php:242 | `insertAll()` appends the column maps in order with consecutive fresh identities |
| `DatabaseAdapter.Adapter.DeleteById` | src/adapters/DatabaseAdapter.php:129 | deleting by identity removes exactly the row with that identity |
| `DatabaseAdapter.Adapter.DeleteSelected` | src/adapters/DatabaseAdapter.php:128-130 | the deletion loop removes exactly the rows whose identities were selected |
| `DatabaseAdapter.Adapter.SavePolicyLine` | src/adapters/DatabaseAdapter.php:45-53 | appends exactly one row, with the given ptype and the rule's values in v0.. and null after them; existing rows are unchanged and the new row matches the rule |
| `DatabaseAdapter.Adapter.AddPolicy` | src/adapters/DatabaseAdapter.php:104-107 | appends exactly the row `savePolicyLine` would append |
| `DatabaseAdapter.Adapter.AddPolicies` | src/adapters/DatabaseAdapter.php:229-243 | appends one row per rule, in input order and duplicates included, each encoded as by `savePolicyLine` |
| `DatabaseAdapter.Adapter.SavePolicy` | src/adapters/DatabaseAdapter.php:81-94 | appends one row per rule, all `p` sections first and then all `g` sections, without clearing or deduplicating |
| `DatabaseAdapter.Adapter.SaveSections` | src/adapters/DatabaseAdapter.php:83-87 | one section loop of `savePolicy` appends the rows of every section in order |
| `DatabaseAdapter.Adapter.SaveSection` | src/adapters/DatabaseAdapter.php:84-86 | the inner loop of `savePolicy` appends one row per rule of the section |
| `DatabaseAdapter.Adapter.LoadPolicy` | src/adapters/DatabaseAdapter.php:62-74 | produces one line per row, in row order, each the row's non-empty fields joined by `", "` and trimmed |
| `DatabaseAdapter.Adapter.RemovePolicy` | src/adapters/DatabaseAdapter.php:118-131 | deletes exactly the rows matching the ptype and the rule, all duplicates included; the other rows remain in their order |
| `DatabaseAdapter.Adapter.RemovePolicies` | src/adapters/DatabaseAdapter.php:290-297 | removes each rule in turn; a row remains exactly when no rule of the list matches it |
| `DatabaseAdapter.Adapter.RemoveFilteredPolicy` | src/adapters/DatabaseAdapter.php:145-161 | deletes exactly the rows matching the ptype and the filter; all other rows are untouched and stay in order |
| `DatabaseAdapter.Adapter.RemoveFilteredPolicyCollect` | src/adapters/DatabaseAdapter.php:194-218 | deletes the same rows as `removeFilteredPolicy` and returns `filterRule` of each deleted row's v0..v5, in select order |
| `DatabaseAdapter.Adapter.DeleteCollecting` | src/adapters/DatabaseAdapter.php:208-215 | the loop of `_removeFilteredPolicy` records each selected row's trimmed values and deletes exactly those rows |
| `DatabaseAdapter.Adapter.UpdatePolicy` | src/adapters/DatabaseAdapter.php:310-324 | overwrites, in the first row matching the old rule, the columns the new rule supplies; with no matching row the call fails and the table is unchanged |
| `DatabaseAdapter.Adapter.UpdatePolicies` | src/adapters/DatabaseAdapter.php:254-261 | applies the pairs in index order; if a pair has no new rule or no matching row, the call fails with that pair's index and the table is restored |
| `DatabaseAdapter.Adapter.UpdateFilteredPolicies` | src/adapters/DatabaseAdapter.php:272-281 | returns what `_removeFilteredPolicy` reports; afterwards the table is the unmatched rows followed by the rows for the new policies |
| `DatabaseAdapter.ColumnMap` | src/adapters/DatabaseAdapter.php:47-50 | the loop over the rule's keys builds exactly the rule's column map |
| `DatabaseAdapter.WhereRule` | src/adapters/DatabaseAdapter.php:120-124 | the `where` loop over the rule's keys builds exactly the rule query |
| `DatabaseAdapter.WhereFilter` | src/adapters/DatabaseAdapter.php:147-154 | the `where` loop over columns 0..5 builds exactly the filter query |
| `DatabaseAdapter.FilterRule` | src/adapters/DatabaseAdapter.php:169-181 | the backward scan returns the rule cut just after its last value that is neither empty nor null |

## Left out

- `src/Enforcer.php` is not part of this model. It is a static singleton that builds classes from configuration strings and forwards calls to the Casbin engine.
- `src/watcher/RedisWatcher.php` is not part of this model. It does Redis publish/subscribe over the network to notify other processes.
- The engine's `loadPolicyLine` and its `Model` are outside the model. `loadPolicy` is modelled up to the lines it hands over. `savePolicy` takes its input as two lists of sections (ptype and rules), `p` first, then `g`.
- `explode(', ')` in `PolicyText` stands in for how the engine splits a line. It is used only to state read-back lemmas.
- The ORM, the database driver and the rollback mechanics of `Db::transaction` are abstracted. The table is a sequence in select order, and each transactional method is atomic.
- Storage exceptions, database collation and type coercion in comparisons are outside the model. Strings compare exactly.
- The unused `$count` of `_removeFilteredPolicy` is not modelled.
- The `sec` argument is never read, so it is dropped from every operation.
- The model does not check that `insertAll` aligns the columns of maps that have different key sets. Every column map is modelled as complete, with unset columns null.
- `DatabaseAdapter.Adapter.constructor`: requires the table it wraps to satisfy the table invariant (increasing identities, all below the next auto-increment value, six value columns per row); the schema's auto-increment key is assumed to guarantee it, and the code does not check it.
- `DatabaseAdapter.Adapter.SavePolicyLine`: requires at most six values. A seventh value would name a column `v6` that the table does not have; what the storage layer does with it is not modelled.
- `DatabaseAdapter.Adapter.AddPolicy`: requires at most six values, for the same reason.
- `DatabaseAdapter.Adapter.AddPolicies`: requires at most six values in every rule, for the same reason.
- `DatabaseAdapter.Adapter.SavePolicy`: requires at most six values in every rule, for the same reason.
- `DatabaseAdapter.Adapter.UpdatePolicy`: requires a new rule of at most six values, for the same reason.
- `DatabaseAdapter.Adapter.UpdatePolicies`: requires at most six values in each new rule that is paired with an old rule, for the same reason; new rules past the last old rule are never read and are unconstrained.
- `DatabaseAdapter.Adapter.UpdateFilteredPolicies`: requires new policies of at most six values, for the same reason.
- `DatabaseAdapter.Adapter.RemovePolicy`: requires a rule of at most six values. A seventh value would put a condition on a column `v6` that the table does not have; what the query then does is not modelled.
- `DatabaseAdapter.Adapter.RemovePolicies`: requires at most six values in every rule, for the same reason; so the case where such a rule makes the transaction roll back the deletions of the earlier rules is not modelled.
- `DatabaseAdapter.Adapter.UpdatePolicy`: the model returns `found == false` where the code throws (no matching row, which includes an old rule whose seventh value conditions a column `v6` the table does not have). Whatever exception the null dereference raises is not modelled.
- PHP arrays are modelled as lists indexed 0, 1, 2, .... Rules with other keys are not modelled.

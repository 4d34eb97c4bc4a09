# Corium in Dafny

Corium is an immutable fact database in the Datomic tradition: a log of datoms, four covering indexes, time views,
attribute protection, schema plans and a relationship-based authorizer. This project models its core and proves what
that core is for.

- **Values, encodings, keys** (`Bytes`, `Values`, `Unicode`, `Encoding`, `Datoms`): the sortable byte encoding and the
  covering keys.
- **The database value** (`Liveness`, `Projection`, `Sorting`, `Indexes`, `Schemas`, `SchemaDatoms`, `Metadata`,
  `DbRuns`, `PlainRuns`): folding a log into indexes, keeping them by increments, sharing them between views, over every
  run, and the schema a transaction leaves.
- **Reading** (`Scans`, `Prefixes`, `Impact`): prefix and range scans, lookup, and the schema-impact scans.
- **Reopening and time** (`Snapshots`, `HistorySnapshots`, `Instants`, `Clocks`): snapshots against full replay, views by
  instant, the rebuilt clock.
- **Authorization** (`Policy`, `Walk`, `Walker`, `Check`, `Views`, `CutShort`, `Access`, `Authorizer`, `RefreshOrder`,
  `Requests`): the compiled policy, the bounded search, what its matches may see, and the policy reference and check
  cache under concurrent requests.
- **Text and digests** (`Decimals`, `Texts`, `Calendar`, `InstantText`, `InstantForms`, `Canonical`,
  `StableSort`, `Plans`, `PlanDigests`, `Fingerprints`): timestamps, the civil calendar, and the bytes behind plan
  digests and fingerprints.
- **Protection** (`Keywords`, `Sealing`, `Sealer`): the keyword interner, sealing and opening.

Code that mutates (encoder buffers, the walk, the check cache, the clock, the interner, index building, the scans) is
modelled by classes and loops, each proved against a specification function whose own properties are the lemmas; code
made of expressions is modelled by functions. `dafny verify dfyconfig.toml` checks everything.

## Main results

1. `EncodingIsOrderPreserving`, `KeyOrder`: byte order is value order, prefix-free, for values and for all four keys.
2. `ReachableIndexesAreRight`, `RunIsExact`, `ReadsArePlain`: over every run the indexes carried are those a value's log,
   schema and view select, exactly when every step is harmless; the machine with shared caches refines one without.
3. `HistorySnapshotIsExact`, `CurrentSnapshotRefinesReplay`: what reopening keeps of full replay, and exactly when.
4. `PrefixAnswers`, `RangeAnswersValues`, `LookupIsLeast`, `UniqueLookup`: byte scans answer value questions.
5. `InstantViews`, `ReopenedClock`: views named by wall-clock instant, and the clock after reopening.
6. `SearchIsExact`, `EnoughBudget`, `AccessIsExact`, `CutShortIsExact`: the bounded search is sound, complete, shortest
   and never gives up with a visit for every goal in reach; what a check grants and shows, read off the policy's rows;
   and what a check cut short shows.
7. `AnswersAreRight`, `NeverBackIsExact`: over every interleaving an answer is the held policy's exactly when nothing is
   cached or cache keys determine decisions, and the policy never moves back exactly when no refresh is overtaken.
8. `CivilInverts`, `DaysInverts`, `ParseUndoesFormat`, `FormsRead`: the calendar, timestamp round trips and every
   documented form of a timestamp.
9. `PreimageIsExact`, `FingerprintIsExact`: what a plan digest and a schema fingerprint cover, neither more nor less.
10. `OpenUndoesSeal`, `OpensAfterChange`, `OpensOnlyInContext`, `SealThenOpen`: sealing and opening across interners,
    contexts and protection changes.
11. `DerivedAttribute`, `DescribedIsDerived`: the schema any transaction leaves, and describing an attribute installs it.

## Where the code and its documentation part

The model follows the code.

- A history snapshot loses a retraction made by the transaction that asserted the fact (`HistorySnapshotIsExact`).
- Attaching names swaps the schema under an already built index (`NamingIsExact`, `NamingCanStale`).
- `final_values` says the order of a transaction's datoms does not matter; it does for conflicting ones
  (`OrderIsIrrelevant`).
- `duplicate_values` says it counts the entities involved; it counts an entity once per shared value it holds
  (`EntitiesAreSharers`, `SharersCountedTwice`).
- The refresh of an authorizer is said to be callable from anywhere; overlapping refreshes can put an older policy back
  (`OverlapCanRegress`, `NeverBackIsExact`), though each decision stays that of the policy it took.
- View combination is called conservative; a check that runs out of budget after a match combines only the views found
  so far and so can show more than the finished check (`CutShortCanShowMore`, `CutShortIsExact`).
- A history snapshot is said to be exact; the clock rebuilt from it still resolves instants a transaction took back
  (`ReopenedClock`, `CorrectedInstant`).
- The fingerprint is said to cover the whole installed schema; it does not cover documentation tracking or the
  generation (`FingerprintIsExact`).
- Formatted instants of negative years do not parse (`ParseUndoesFormat`).
- An offset after a timestamp is said to be rejected; after a fraction of three digits or more, one without a colon is
  read over (`OffsetsRefused`, `OffsetIsReadOver`).
- A boolean byte above one decodes as true (`DecodeIsCanonical`), and a transaction id of 2^63 or more does not survive
  its key (`KeyRoundTrip`).

## Model

| member | source | states |
|---|---|---|
| `Values.IdRoundTrip` | crates/corium-core/src/ids.rs:35-61 | an entity id gives back the partition and sequence it was built from exactly when they fit 22 and 42 bits |
| `Values.SortableBitsAreTotalOrder` | crates/corium-core/src/value.rs:14-37 | sortable bits compare as the totalOrder predicate of section 5.10 of IEEE 754-2019 does, and tell all bit patterns apart |
| `Values.ValueLessIsTotal` | crates/corium-core/src/value.rs:55-77 | the derived order on values is total and antisymmetric, doubles and sealed values included |
| `Encoding.Buffer.EncodeEscaped` | crates/corium-core/src/encoding.rs:346-355 | the escape loop appends exactly the escaped form |
| `Encoding.Buffer.EncodeValue` | crates/corium-core/src/encoding.rs:226-271 | the encoder appends exactly the encoding of the value, one branch per variant |
| `Encoding.EscapedOrders` | crates/corium-core/src/encoding.rs:346-355 | escaping keeps byte order and the order is always decided at a byte both escaped forms have |
| `Encoding.EncodeOrders` | crates/corium-core/src/encoding.rs:226-271 | a smaller value's encoding is smaller at a byte both encodings have, whatever follows either |
| `Encoding.EncodingIsOrderPreserving` | crates/corium-core/src/encoding.rs:208-271 | value order is byte order in both directions, equal encodings mean equal values, and no encoding is a prefix of another |
| `Encoding.DecodeEscaped` | crates/corium-core/src/encoding.rs:356-374 | the index loop reads what the recursive reading of escaped bytes reads, errors included |
| `Encoding.DecodeInvertsEncode` | crates/corium-core/src/encoding.rs:279-334 | decoding an encoding followed by anything returns the value and its exact length |
| `Encoding.UnescapeIsCanonical` | crates/corium-core/src/encoding.rs:356-374 | every accepted escaped input is the escaping of what it reads as |
| `Encoding.DecodeIsCanonical` | crates/corium-core/src/encoding.rs:279-334 | an accepted input is the encoding of its value exactly when it is not a boolean written with a byte above one |
| `Encoding.PrefixRefused` | crates/corium-core/src/encoding.rs:279-334 | no encoding cut short decodes to anything |
| `Encoding.UnknownTagIsExact` | crates/corium-core/src/encoding.rs:279-334 | a tag is refused as unknown exactly when it is none of the ten |
| `Unicode.Utf8IsExact` | crates/corium-core/src/encoding.rs:304-310 | the bytes taken as text are exactly the encodings of sequences of Unicode scalar values |
| `Datoms.KeyPrefix` | crates/corium-db/src/lib.rs:187-222 | the loop encodes bound components in index order up to the first one missing |
| `Datoms.WholePrefixIsComponents` | crates/corium-db/src/lib.rs:187-222 | with all three components bound the prefix is the component key of the fact |
| `Datoms.SharedComponents` | crates/corium-core/src/datom.rs:48-50 | stripping the transaction suffix leaves the component key, shared by exactly the datoms of one fact |
| `Datoms.ComponentOrder` | crates/corium-core/src/datom.rs:55-85 | in each of the four orders component keys sort as the components do and tell facts apart |
| `Datoms.KeyOrder` | crates/corium-core/src/datom.rs:55-85 | full keys sort by components, then transaction, then retraction before assertion |
| `Datoms.KeyRoundTrip` | crates/corium-core/src/datom.rs:87-141 | in all four orders a key decodes to its datom exactly when the transaction id is below 2^63 |
| `Datoms.KeyRejectsTrailing` | crates/corium-core/src/datom.rs:87-137 | a key with anything after it is refused as trailing, in all four orders |
| `Liveness.LiveMeaning` | crates/corium-db/src/lib.rs:1043-1063 | the fold keeps exactly the facts whose last mention asserts them, with that very datom |
| `Liveness.LastMentionDecides` | crates/corium-db/src/lib.rs:1043-1063 | the last mention of a fact decides it whatever was live before |
| `Indexes.TouchIsRecord` | crates/corium-db/src/lib.rs:1099-1129 | inserting or removing in one index commutes with recording the datom in the live set it projects |
| `Indexes.TouchEachIsReplay` | crates/corium-db/src/lib.rs:1099-1116 | folding datoms into correct indexes gives the correct indexes of the longer log, in all four orders |
| `Indexes.InsertDatom` | crates/corium-db/src/lib.rs:1118-1129 | an assertion lands in every order that covers it and in no other |
| `Indexes.RemoveDatom` | crates/corium-db/src/lib.rs:1105-1113 | a retraction removes the fact from every order that covers it |
| `Indexes.ApplyCurrent` | crates/corium-db/src/lib.rs:1099-1116 | the loop over new datoms is the fold `TouchEachIsReplay` is about |
| `Indexes.FoldEavt` | crates/corium-db/src/lib.rs:1043-1063 | the EAVT fold up to a cutoff is the projection of the live set at the cutoff |
| `Indexes.ProjectOrder` | crates/corium-db/src/lib.rs:1064-1091 | the other orders, filled from folded EAVT, are projections of the same live set |
| `Indexes.BuildHistory` | crates/corium-db/src/lib.rs:1026-1033 | the history loop indexes exactly the retained covered datoms under their full keys |
| `Indexes.BuildIndexes` | crates/corium-db/src/lib.rs:1022-1091 | a cold value's four indexes are exactly what its view declares, for each kind of view |
| `SchemaDatoms.NoSchemaChange` | crates/corium-db/src/schemadatoms.rs:35-205 | a transaction that reports no schema change leaves the derived schema alone when attribute metadata sits on attributes |
| `SchemaDatoms.UnreportedCoverage` | crates/corium-db/src/schemadatoms.rs:53-205 | otherwise coverage can move unreported: uniqueness written on a user entity installs an indexed attribute |
| `SchemaDatoms.OrderIsIrrelevant` | crates/corium-db/src/schemadatoms.rs:60-83 | the final values of a transaction are the same for every order of its datoms exactly when no slot is asserted with two values or with one both asserted and retracted |
| `SchemaDatoms.LastConflictWins` | crates/corium-db/src/schemadatoms.rs:67-83 | for every two such datoms, swapping them at the end changes the result |
| `Metadata.FinalMeaning` | crates/corium-db/src/schemadatoms.rs:60-83 | a slot is left with the value of the last assertion on it not retracted after, and cleared when there is none |
| `Metadata.DerivedAttribute` | crates/corium-db/src/schemadatoms.rs:85-205 | the attribute and protection timeline any transaction leaves, field by field, from what its slots are left with |
| `Metadata.UniqueStaysIndexed` | crates/corium-db/src/schemadatoms.rs:203-207 | unique attributes stay indexed through every transaction |
| `Metadata.DescribedIsDerived` | crates/corium-db/src/schemadatoms.rs:85-244 | datoms describing any attribute on a new entity install exactly that attribute |
| `Metadata.NamesAreExact` | crates/corium-db/src/schemadatoms.rs:207-244 | the nine type names and two uniqueness modes are read as what they name, and no other name is |
| `Metadata.RetractedIsDefault` | crates/corium-db/src/schemadatoms.rs:85-205 | taking everything back clears uniqueness, index and no-history and keeps the type |
| `DbRuns.FoldClassSelects` | crates/corium-db/src/lib.rs:761-774 | a view and its fold class have the same indexes, so they may share a cell |
| `DbRuns.ProjectionAgrees` | crates/corium-db/src/lib.rs:1139-1161 | two schemas project a live set alike exactly when they cover its attributes alike |
| `DbRuns.IncrementalIsExact` | crates/corium-db/src/lib.rs:927-984 | extending a warm parent's indexes is right exactly when no live attribute's coverage moved |
| `DbRuns.ViewAgrees` | crates/corium-db/src/lib.rs:1022-1161 | a view, of any kind, has the same indexes under two schemas exactly when they keep and cover alike whatever it shows |
| `DbRuns.StepIsExact` | crates/corium-db/src/lib.rs:384-984 | creating, reopening, applying a transaction, taking a view, reading and naming each keep every cell right for every value that points at it exactly when the step is harmless: naming that changes nothing shown, a transaction that rebuilds or moves no live coverage |
| `DbRuns.TransactorIsHarmless` | crates/corium-db/src/lib.rs:927-984 | a transaction with metadata on attributes only, as the transactor enforces, is harmless |
| `DbRuns.InstalledIsHarmless` | crates/corium-db/src/bootstrap.rs:466-472 | naming a value whose schema still carries the engine attributes is harmless |
| `DbRuns.RunIsExact` | crates/corium-db/src/lib.rs:384-984 | all states of a run are right exactly when all its steps are harmless |
| `DbRuns.HarmGoesStale` | crates/corium-db/src/lib.rs:569-984 | after any other step some value carries wrong indexes, at once or after one read |
| `DbRuns.UnreportedCanStale` | crates/corium-db/src/lib.rs:927-984 | a run in which an unreported coverage change leaves a value with a partial AVET index |
| `DbRuns.ReachableIndexesAreRight` | crates/corium-db/src/lib.rs:735-1091 | after every run of harmless steps the indexes any value carries, rebuilt or extended or shared, are the covered projection its own log, schema and view select, and its allocator is past every recorded user id |
| `PlainRuns.StepRefines` | crates/corium-db/src/lib.rs:384-984 | each step makes the value it makes without any cache: a view changes the view alone, a transaction appends its datoms, reopening records the datoms given, naming installs and names; older values stay |
| `PlainRuns.RunRefines` | crates/corium-db/src/lib.rs:384-984 | a run makes the values of the same run without caches |
| `PlainRuns.ReadsArePlain` | crates/corium-db/src/lib.rs:384-1091 | after any harmless run, reading any value gives its whole log folded again under its schema and view |
| `PlainRuns.LookThenRead` | crates/corium-db/src/lib.rs:735-760 | taking a view of a value and reading it gives what that view selects of that value's log under its schema; basis, allocator, schema, names and log are the value's |
| `PlainRuns.ApplyThenRead` | crates/corium-db/src/lib.rs:927-984 | a transaction, warm or cold, then a read gives the longer log folded under the schema it derives |
| `PlainRuns.LookShares` | crates/corium-db/src/lib.rs:735-774 | two views of one value share a cell exactly when they are the same view or both select all there is |
| `PlainRuns.RunWritesOnce` | crates/corium-db/src/lib.rs:1022-1024 | over every run, harmless or not, a filled cell is never written again |
| `PlainRuns.ApplyStaysWarm` | crates/corium-db/src/lib.rs:927-984 | a transaction makes a warm value exactly on top of a warm one when it reports no schema change |
| `DbRuns.NamingIsExact` | crates/corium-db/src/lib.rs:569-574 | attaching names keeps a value's indexes right exactly when installing the engine attributes changes nothing its view shows, history views included |
| `DbRuns.NamingCanStale` | crates/corium-db/src/lib.rs:357-574 | a run that leaves a stale value: a default value that recorded an instant, then named |
| `DbRuns.NextUserBounds` | crates/corium-db/src/lib.rs:443-447 | the next user sequence never falls and exceeds every user id recorded |
| `DbRuns.NextUserIsLeast` | crates/corium-db/src/lib.rs:443-447 | and is no higher than that takes |
| `Scans.PrefixScanIsExact` | crates/corium-db/src/lib.rs:817-827 | a prefix scan yields exactly the keys with the prefix, ascending |
| `Prefixes.KeyAgrees` | crates/corium-db/src/lib.rs:187-222 | in every order a key carries a prefix exactly when its fact has the leading components bound |
| `Prefixes.PrefixAnswers` | crates/corium-db/src/lib.rs:817-826 | on live views, in every order and for any components bound, a prefix scan yields exactly the live facts the order covers that have them, each once, in order |
| `Prefixes.ReferencesTo` | crates/corium-db/src/lib.rs:1139-1145 | the VAET scan of an entity yields exactly the live references to it |
| `Prefixes.ValuesOf` | crates/corium-db/src/lib.rs:866-873 | the values of an entity and attribute are exactly the live ones, ascending |
| `Prefixes.HistoryPrefixAnswers` | crates/corium-db/src/lib.rs:817-1041 | on the history view a prefix scan yields exactly the recorded datoms of retained attributes that are covered and agree |
| `Scans.RangeIsExact` | crates/corium-db/src/lib.rs:848-864 | on any AVET index of a never protected attribute a range yields exactly the entries with start <= v < end, by value then entity |
| `Scans.RangeAnswersValues` | crates/corium-db/src/lib.rs:848-864 | on current, as-of and since views a range is refused exactly for attributes that ever had a class, and otherwise yields exactly the live facts in range of an indexed or unique attribute, each once, strictly by value then entity |
| `Scans.RowsAreExact` | crates/corium-db/src/lib.rs:808-814 | an attribute scan yields each live datom of the attribute once, by entity then value |
| `Scans.LookupByValue` | crates/corium-db/src/lib.rs:877-889 | the AVET branch of lookup returns the least entity holding the value |
| `Scans.LookupByScan` | crates/corium-db/src/lib.rs:877-889 | so does the scanning branch |
| `Scans.LookupIsLeast` | crates/corium-db/src/lib.rs:877-889 | whichever branch runs, lookup on a live view returns the least entity holding the value, or nothing if none does |
| `Snapshots.RecordedSince` | crates/corium-db/src/lib.rs:660-676 | the backward scan returns exactly the datoms after t, in order, on replayed logs and on snapshot-opened ones from their basis on |
| `Snapshots.TailCompletesAsOf` | crates/corium-db/src/lib.rs:1099-1116 | folding that tail into the as-of-t indexes gives the current indexes in all four orders |
| `Snapshots.CurrentSnapshotRefinesReplay` | crates/corium-db/src/lib.rs:434-479 | opened from the live datoms and given the tail, a value has the current view, every since view and every as-of view from the basis on that full replay has |
| `Snapshots.AllocatorSurvives` | crates/corium-db/src/lib.rs:434-479 | with the persisted mark the allocator resumes where replay has it, past every user id ever recorded |
| `Snapshots.CurrentSnapshotBeforeBasis` | crates/corium-db/src/lib.rs:434-479 | before its basis such a value answers as replay does exactly when nothing live then was touched since |
| `Snapshots.SurvivorIff` | crates/corium-db/src/lib.rs:1043-1063 | a fact stands at the end as it stood at t exactly when nothing after t mentions it |
| `HistorySnapshots.HistorySnapshotMeaning` | crates/corium-db/src/lib.rs:514-565 | a history snapshot holds exactly the retained datoms, sorted by fact, transaction, retraction first |
| `HistorySnapshots.HistoryViewSurvives` | crates/corium-db/src/lib.rs:514-565 | reopened from snapshots and given the tail, the history view is that of full replay |
| `HistorySnapshots.KeyOrderDecides` | crates/corium-db/src/lib.rs:514-565 | folded in key order a fact stands as its latest transaction asserted it, if it asserted it at all |
| `HistorySnapshots.StandingAgrees` | crates/corium-db/src/lib.rs:514-565 | for one fact and time, reopened value and replay differ exactly where the deciding transaction retracted its own assertion |
| `HistorySnapshots.HistorySnapshotIsExact` | crates/corium-db/src/lib.rs:514-565 | as-of views agree with replay on every retained fact at every time exactly when no transaction asserts a retained fact and ends by retracting it |
| `HistorySnapshots.AsOfSurvivesTail` | crates/corium-db/src/lib.rs:514-565 | with any tail applied, as-of views still agree on every retained fact the snapshot did not lose |
| `HistorySnapshots.SelfUndoingTransaction` | crates/corium-db/src/lib.rs:514-565 | the smallest log on which they differ |
| `HistorySnapshots.ReopenedRefinesReplay` | crates/corium-db/src/lib.rs:514-565 | under that condition current and since views agree too, no-history facts included, in all four orders |
| `Instants.TxInstants.Record` | crates/corium-db/src/lib.rs:242-253 | recording keeps the instant map determined by the transaction map exactly when it does not take back an instant that no later transaction shares |
| `Instants.TxInstants.TAt` | crates/corium-db/src/lib.rs:262-267 | resolution takes the entry of the greatest instant at or before the one named, or zero |
| `Instants.ClockIsDetermined` | crates/corium-db/src/lib.rs:236-253 | the order of recording cannot matter |
| `Instants.ResolutionIsExact` | crates/corium-db/src/lib.rs:262-267 | resolution names the last commit at or before every instant exactly when every step back in time is later made good, in particular when instants never go back |
| `Instants.FindAssertedInstant` | crates/corium-db/src/bootstrap.rs:525-547 | the loop finds the last instant asserted on the own transaction, unless retracted after |
| `Instants.AssertedInstantMeaning` | crates/corium-db/src/bootstrap.rs:525-547 | an instant is found exactly when such an assertion survives |
| `Instants.RecordRun` | crates/corium-db/src/lib.rs:242-253 | recording a run's commits in any order, repeats included, makes the clock of the run |
| `Instants.Settle` | crates/corium-db/src/lib.rs:913-925 | a commit whose datoms assert an instant that survives takes it and gains nothing; any other keeps the instant supplied and gains exactly the one datom asserting it on the transaction |
| `Instants.AsOfInstantReplays` | crates/corium-db/src/lib.rs:715-725 | cutting the log at the resolved basis replays exactly the commits at or before the instant |
| `Instants.InstantViews` | crates/corium-db/src/lib.rs:715-733 | an as-of view named by instant is the replay of the commits by then; a since view holds the live facts the commits by then did not record |
| `Clocks.RebuildClock` | crates/corium-db/src/lib.rs:534-551 | the loop over reopened datoms records each instant asserted on its own transaction |
| `Clocks.KeyOrderClock` | crates/corium-db/src/lib.rs:450-467 | a clock rebuilt from a listing in key order is that of the run exactly when no listed transaction is stamped with an instant it did not keep |
| `Clocks.ReopenedClock` | crates/corium-db/src/lib.rs:534-551 | so for a database reopened from its history |
| `Clocks.CorrectedInstant` | crates/corium-db/src/lib.rs:534-551 | a transaction that corrects its own instant: the reopened clock differs |
| `Impact.AttributeImpact` | crates/corium-db/src/impact.rs:88-105 | datoms, entities and values are the cardinalities of the sets they name |
| `Impact.FindCardinalityConflicts` | crates/corium-db/src/impact.rs:110-129 | entities and datoms count exactly the entities with several values and what they hold; the sample is the lowest of them, ascending, up to the limit |
| `Impact.FindDuplicateValues` | crates/corium-db/src/impact.rs:133-152 | groups count exactly the shared values, entities the holdings of shared values, which are the entities involved exactly when none holds two shared values; the sample is the first holders, value by value and ascending in each, up to the limit |
| `Impact.EntitiesAreSharers` | crates/corium-db/src/impact.rs:53-62 | holdings never fall below the entities involved, and equal them exactly when no entity holds two shared values |
| `Impact.SharersCountedTwice` | crates/corium-db/src/impact.rs:53-62 | two entities sharing two values are counted as four |
| `Impact.CardinalityOneSharesOnce` | crates/corium-db/src/impact.rs:53-62 | under cardinality one the count is the entities involved |
| `Impact.CountPerEntity` | crates/corium-db/src/impact.rs:110-118 | each entity is counted with the number of values it holds |
| `Impact.GroupByValue` | crates/corium-db/src/impact.rs:133-140 | each value is grouped with exactly its holders |
| `Impact.ScannedRows` | crates/corium-db/src/impact.rs:88-152 | the rows a live view scans are the live datoms of the attribute, each once |
| `Impact.NoConflicts` | crates/corium-db/src/impact.rs:110-129 | the conflict scan is empty exactly when cardinality one already holds |
| `Impact.NoDuplicates` | crates/corium-db/src/impact.rs:133-152 | the duplicate scan is empty exactly when uniqueness already holds |
| `Impact.UniqueLookup` | crates/corium-db/src/impact.rs:133-152 | then lookup resolves every held value to its only holder |
| `Policy.CompileTuples` | crates/corium-authz/src/policy.rs:221-238 | the index holds, per object and relation, exactly the rows' subjects in order |
| `Policy.SubjectsForMembers` | crates/corium-authz/src/policy.rs:422-433 | a subject is found exactly when a row for the object or its type wildcard names it |
| `Policy.SubjectsInOrder` | crates/corium-authz/src/policy.rs:420-433 | the object's own rows come first, in order, then those for every object of its kind, each row once |
| `Policy.CompileRewrites` | crates/corium-authz/src/policy.rs:272-298 | the index holds, per relation, exactly the rules that derive it, in order |
| `Policy.RewritesForMembers` | crates/corium-authz/src/policy.rs:436-447 | a rule is found exactly when it derives the relation and its type restriction admits the object |
| `Policy.RewritesInOrder` | crates/corium-authz/src/policy.rs:436-447 | the rules for a relation and kind apply in row order |
| `Policy.CompileBindings` | crates/corium-authz/src/policy.rs:332-369 | compilation succeeds exactly when every binding names a defined view; then the binding in force is the last row's and every one names a defined view |
| `Walk.HopMeaning` | crates/corium-authz/src/eval.rs:335-383 | one hop is a userset row, an expanded plain row, or a rewrite over a via row, and nothing else |
| `Walk.SuccessMeaning` | crates/corium-authz/src/eval.rs:335-401 | a goal succeeds exactly when a row on its relation, for its object or every object of its kind, names a plain subject among the request's own or the wildcard of a kind one of them has |
| `Walk.WildcardRow` | crates/corium-authz/src/eval.rs:391-401 | a row for every subject of a kind satisfies exactly the requests with a subject of that kind |
| `Walk.PlainRow` | crates/corium-authz/src/eval.rs:391-401 | a row for one subject satisfies exactly the requests with that very subject |
| `Walk.GrantsOnRows` | crates/corium-authz/src/eval.rs:323-417 | some chain grants a root exactly when it follows from the rows, hop by hop, within the depth bound |
| `Walk.EnoughBudget` | crates/corium-authz/src/eval.rs:273-389 | with a visit for every goal in reach, cycles or not, a search never gives up, and never spends more |
| `Walk.VisitKeeps` | crates/corium-authz/src/eval.rs:323-418 | visiting a node keeps the search tree breadth-first: parents precede, depths step by one, everything nearer is done |
| `Walk.ChainIsPushed` | crates/corium-authz/src/eval.rs:323-418 | when everything nearer was visited, the k-th goal of any chain was pushed within k hops, cycles included |
| `Walk.PathIsChain` | crates/corium-authz/src/eval.rs:420-431 | parent links spell a genuine chain one goal longer than the node is deep |
| `Walk.SearchIsExact` | crates/corium-authz/src/eval.rs:323-431 | while the budget lasts the search finds a path exactly when a chain within the depth bound grants; the path is a genuine chain of least length; giving up means the whole budget is spent |
| `Walk.MoreBudget` | crates/corium-authz/src/eval.rs:279-431 | a search that ended is the same search under any larger budget |
| `Walker.Budget.Spend` | crates/corium-authz/src/eval.rs:279-287 | spending succeeds exactly while something is left and takes one |
| `Walker.Walker.PushGoal` | crates/corium-authz/src/eval.rs:403-418 | pushing adds a node exactly when the goal is new and within depth |
| `Walker.Walker.VisitSubjects` | crates/corium-authz/src/eval.rs:335-370 | the first loop stops at the first satisfying subject or has pushed what all subjects lead to |
| `Walker.Walker.VisitRewrites` | crates/corium-authz/src/eval.rs:372-383 | the second loop pushes the parents each applicable rule points at |
| `Walker.Walker.Visit` | crates/corium-authz/src/eval.rs:335-383 | one visit finds a satisfying subject exactly when there is one, and otherwise pushes every successor in order |
| `Walker.Walker.PathOf` | crates/corium-authz/src/eval.rs:420-431 | following parent links gives the path of the functional search |
| `Walker.Walker.Run` | crates/corium-authz/src/eval.rs:323-386 | the in-place walk over nodes, queue and visited set computes the functional search and charges exactly its visits |
| `Check.CollectMatches` | crates/corium-authz/src/eval.rs:195-217 | the loop over roots collects what the shared-budget fold collects |
| `Check.SearchOutcome` | crates/corium-authz/src/eval.rs:195-217 | each root search reports derivability and a shortest justification |
| `Check.MoreBudgetExtends` | crates/corium-authz/src/eval.rs:183-230 | raising the budget only extends the match list; never more than the budget is spent; exhaustion means all of it was |
| `Check.CheckIsExact` | crates/corium-authz/src/eval.rs:183-230 | an unexhausted check collects exactly the derivable roots in order, each with a shortest path; an exhausted one a prefix of them |
| `Check.PermittedStays` | crates/corium-authz/src/eval.rs:183-230 | a check permitted under one budget is permitted under every larger one |
| `Check.EnoughForAll` | crates/corium-authz/src/eval.rs:183-217 | with a visit for every goal and root a check never runs out |
| `Views.Combine` | crates/corium-authz/src/view.rs:163-169 | the combined filter admits an attribute exactly when every part does |
| `Views.Intersect` | crates/corium-protocol/src/authz.rs:525-533 | a key passes the intersection exactly when it passes both grants |
| `Views.CombineViews` | crates/corium-authz/src/eval.rs:239-271 | an attribute is visible, and a key usable, exactly when some match is bound unfiltered or every bound view among the matches admits it; the grant is unfiltered exactly when one is or no view restricts, and otherwise names the views in match order |
| `Views.OneMoreMatch` | crates/corium-authz/src/eval.rs:239-271 | holding one more relation never reveals more unless it is itself bound unfiltered |
| `Views.MoreBudgetNarrows` | crates/corium-authz/src/eval.rs:183-271 | raising the budget of a granted check never reveals more unless it finds an unfiltered binding |
| `CutShort.FoundFirst` | crates/corium-authz/src/eval.rs:183-230 | the matches under a smaller budget are those of the first derivable roots, a finished check has them all |
| `CutShort.CutShortIsExact` | crates/corium-authz/src/eval.rs:183-271 | a check under a smaller budget shows the same attributes, or keys, as the finished one exactly when the views of the derivable roots past those found admit whatever the found ones admit |
| `CutShort.CutShortCanShowMore` | crates/corium-authz/src/eval.rs:183-271 | a policy under which a check cut short shows an attribute the finished one hides |
| `Views.BoundViewsImpose` | crates/corium-authz/src/policy.rs:332-369 | since compilation refuses undefined views, a binding that names a view imposes it |
| `Views.Decide` | crates/corium-authz/src/eval.rs:183-230 | the whole check: no permission exactly without relations; a grant exactly when the search found a match, with all the matches it found and exactly what they show together; out of budget exactly when it found none and spent its budget |
| `Check.RootsAt` | crates/corium-authz/src/eval.rs:201-204 | the roots are searched object by object, and relation by relation within one |
| `Check.RootsMembers` | crates/corium-authz/src/eval.rs:201-204 | they are exactly the pairs of an object and a relation asked about |
| `Views.CompileViews` | crates/corium-authz/src/policy.rs:300-330 | a view name stands for its last definition, compiled |
| `Access.BindingOnRows` | crates/corium-authz/src/policy.rs:449-458 | the binding of a goal is the last row for its own object, and only without one the last for every object of its kind |
| `Access.CompiledShows` | crates/corium-authz/src/view.rs:15-156 | a compiled view admits exactly the attributes an allowlist names, all but those a denylist names, or all, whichever way colons are written, and permits exactly the keys it names or all |
| `Access.AccessIsExact` | crates/corium-authz/src/eval.rs:183-271 | stated on rows alone: a check within budget grants exactly when the rows derive a relation and object asked about, and then shows an attribute, or unlocks a key, exactly when one derived is bound unfiltered or the views bound to all of them allow it |
| `Authorizer.CheckCache.constructor` | crates/corium-authz/src/authorizer.rs:503-509 | a new cache is empty at basis zero |
| `Authorizer.CheckCache.RetargetTo` | crates/corium-authz/src/authorizer.rs:511-516 | moving to another basis drops every entry, staying keeps them |
| `Authorizer.CheckCache.Get` | crates/corium-authz/src/authorizer.rs:518-521 | a lookup retargets first |
| `Authorizer.CheckCache.Store` | crates/corium-authz/src/authorizer.rs:523-532 | a store retargets, empties a full cache, then inserts |
| `Authorizer.StepKeeps` | crates/corium-authz/src/authorizer.rs:222-360 | every interleaved step of refreshes and decisions keeps cached results decisions of the cache's basis, within capacity, and every task's result a decision of the policy it holds |
| `Authorizer.ReachableIsSafe` | crates/corium-authz/src/authorizer.rs:222-360 | so in every reachable state |
| `Authorizer.AnswersAreRight` | crates/corium-authz/src/authorizer.rs:288-360 | over every interleaving, answers equal evaluating the policy held (for fresh requests one no older than their arrival) exactly when there is no cache or cache keys determine decisions |
| `Authorizer.Collision` | crates/corium-authz/src/authorizer.rs:320-358 | two requests sharing a key with different decisions: the second is served the first one's |
| `Authorizer.FailureIsHarmless` | crates/corium-authz/src/authorizer.rs:222-246 | a failed refresh changes neither policy nor cache, and no step makes a loaded policy absent |
| `Requests.RefreshAlone` | crates/corium-authz/src/authorizer.rs:222-246 | from any state, a refresh on its own leaves the policy at the source's basis and a cache without entries of another, and touches neither when already there |
| `Requests.AskAlone` | crates/corium-authz/src/authorizer.rs:288-360 | from any state, a request on its own holds the source's policy when it must be fresh or none is loaded and the loaded one otherwise, is answered from that policy's entries or by it, and its answer is remembered, a full cache emptied first |
| `Requests.FailsAlone` | crates/corium-authz/src/authorizer.rs:222-246 | loading can fail while reading or compiling and only then, and then only the caller is turned away |
| `RefreshOrder.NeverBackIsExact` | crates/corium-authz/src/authorizer.rs:222-246 | over every run the policy in use never moves back exactly when no refresh is overtaken: no other refresh reads a later basis after its read and swaps before its swap |
| `RefreshOrder.SerialRefreshMovesForward` | crates/corium-authz/src/authorizer.rs:222-246 | in particular when no two refreshes are ever between reading and swapping |
| `Authorizer.OverlapCanRegress` | crates/corium-authz/src/authorizer.rs:222-246 | a reachable state in which an overlapping refresh moves it back |
| `Calendar.DaysByMarchYears` | crates/corium-cli/src/instant.rs:140-150 | the era form of the day count is the plain count of March years |
| `Calendar.YearOfEraIsExact` | crates/corium-cli/src/instant.rs:125-129 | the division estimate of the year in the era is exact on every day of it |
| `Calendar.DaysFollowCalendar` | crates/corium-cli/src/instant.rs:140-150 | later valid dates have greater day counts |
| `Calendar.TomorrowIsOneMore` | crates/corium-cli/src/instant.rs:119-150 | a valid date's successor is valid and one day on |
| `Calendar.EpochIsZero` | crates/corium-cli/src/instant.rs:138-150 | 1970-01-01 is day zero |
| `Calendar.CivilInverts` | crates/corium-cli/src/instant.rs:125-150 | every day count has a valid date that counts back to it |
| `Calendar.DaysInverts` | crates/corium-cli/src/instant.rs:125-150 | every date the month-length and leap rules accept is the date of its day count |
| `InstantText.YearFits` | crates/corium-cli/src/instant.rs:10-22 | no step of formatting any i64 leaves the i64 range |
| `InstantText.DateReads` | crates/corium-cli/src/instant.rs:38-57 | formatted dates from year zero on read back |
| `InstantText.TimeReads` | crates/corium-cli/src/instant.rs:59-78 | formatted times read back to the millisecond |
| `InstantText.ParseUndoesFormat` | crates/corium-cli/src/instant.rs:10-83 | for every i64, parsing the formatted text gives the instant if its year is not negative and nothing otherwise |
| `InstantText.NegativeYearFails` | crates/corium-cli/src/instant.rs:38-42 | a negative year's sign reads as a separator |
| `InstantText.ReadingIsStable` | crates/corium-cli/src/instant.rs:10-83 | whatever any text reads as is formatted as text that reads the same |
| `InstantForms.FormsRead` | crates/corium-cli/src/instant.rs:25-83 | every documented form on every valid date from year zero on reads as the instant it means if that fits 64 bits: a date alone, or with T or a space and a time to the minute, second or a fraction of any length cut or filled to three digits; a Z and surrounding white space change nothing |
| `InstantForms.WrongShapesRefused` | crates/corium-cli/src/instant.rs:34-77 | a date without exactly two dashes or a time without one or two colons is refused |
| `InstantForms.WrongDatesRefused` | crates/corium-cli/src/instant.rs:34-44 | so is a date alone without exactly two dashes |
| `InstantForms.OffsetsRefused` | crates/corium-cli/src/instant.rs:25-83 | a documented form followed by an offset is refused exactly unless it has a fraction of three digits or more and the offset no colon |
| `InstantForms.OffsetIsReadOver` | crates/corium-cli/src/instant.rs:25-83 | then the offset is read over: midnight in any zone reads as midnight UTC |
| `InstantForms.FormatShape` | crates/corium-cli/src/instant.rs:8-23 | four-character years are written in 23 characters, every field and separator in its place |
| `InstantForms.TrimIsExact` | crates/corium-cli/src/instant.rs:32 | trimming takes exactly the white space around a text |
| `Decimals.SignedReads` | crates/corium-cli/src/instant.rs:113-116 | digits with or without a sign read as the number within 64 bits, and nothing beyond |
| `Canonical.Encoder.WriteField` | crates/corium-core/src/migration.rs:831-837 | a field is appended as length, colon, bytes, newline |
| `Canonical.Encoder.WriteOptional` | crates/corium-core/src/migration.rs:839-847 | an optional value is appended as a marker and, when present, the value |
| `Canonical.FieldReads` | crates/corium-core/src/migration.rs:821-837 | a field followed by anything can be read in one way only |
| `Canonical.FieldsAreInjective` | crates/corium-core/src/migration.rs:821-852 | no two lists of fields have one encoding |
| `Plans.NormalAgrees` | crates/corium-core/src/migration.rs:571-592 | what is written of two steps agrees exactly when every digested part does, acknowledgements and dependencies up to order |
| `Plans.StepReads` | crates/corium-core/src/migration.rs:571-592 | a step's fields followed by anything give the step back |
| `Plans.PreimageIsExact` | crates/corium-core/src/migration.rs:551-600 | digest inputs are equal exactly when the plans agree on target, source, pruning, the steps under each key in order, and the unmanaged idents up to order |
| `Plans.ObservationsAreNotDigested` | crates/corium-core/src/migration.rs:551-600 | database, basis, generation, observations, notes, summaries and recipes never reach the digest, nor does the order of acknowledgements and dependencies |
| `Plans.PermutingKeepsPreimage` | crates/corium-core/src/migration.rs:568-569 | permuting steps with keys of their own never changes the digest input |
| `Plans.SharedKeysKeepOrder` | crates/corium-core/src/migration.rs:568-569 | two steps that share a key can be swapped unnoticed exactly when they say the same |
| `StableSort.Sort` | crates/corium-core/src/migration.rs:568-569 | the sort used is the stable sort by key |
| `StableSort.SortsAlike` | crates/corium-core/src/migration.rs:568-569 | two lists sort alike exactly when they hold the same items in the same order under each key |
| `StableSort.TextsSortAlike` | crates/corium-core/src/migration.rs:579-588 | texts sort alike exactly when they are the same up to order |
| `PlanDigests.WriteStep` | crates/corium-core/src/migration.rs:571-592 | a step is written as its normalised fields |
| `PlanDigests.Digested` | crates/corium-core/src/migration.rs:561-600 | sorting and writing field by field produces exactly the digest input |
| `Fingerprints.NewSchema` | crates/corium-core/src/migration.rs:695-704 | attributes end up under their own ident |
| `Fingerprints.LatestStands` | crates/corium-core/src/migration.rs:695-704 | of attributes with one ident the last given stands |
| `Fingerprints.FingerprintIsExact` | crates/corium-core/src/migration.rs:754-776 | fingerprint inputs are equal exactly when every installed attribute agrees in every property |
| `Fingerprints.Fingerprinted` | crates/corium-core/src/migration.rs:754-776 | writing the attributes in ident order produces exactly that input |
| `Keywords.TextRoundTrip` | crates/corium-core/src/keyword.rs:33-41 | a keyword's text parses back to it exactly when parsing can produce it |
| `Keywords.ParseIsParsable` | crates/corium-core/src/keyword.rs:33-41 | parsing always produces such a keyword, and its text is the text parsed |
| `Keywords.KeywordInterner.constructor` | crates/corium-core/src/keyword.rs:74-80 | a new interner knows nothing |
| `Keywords.KeywordInterner.Intern` | crates/corium-core/src/keyword.rs:84-93 | interning gives a keyword its id or the next dense one; every id keeps its meaning exactly when that id was not handed out locally to another keyword, in particular below the local range |
| `Keywords.KeywordInterner.InternLocal` | crates/corium-core/src/keyword.rs:102-114 | local interning never touches the durable table, reuses a durable id, and keeps what every id resolves to |
| `Keywords.KeywordInterner.Get` | crates/corium-core/src/keyword.rs:118-127 | a keyword is found exactly when either table has it, under an id that resolves to it |
| `Keywords.KeywordInterner.Resolve` | crates/corium-core/src/keyword.rs:131-140 | durable ids resolve before local ones |
| `Keywords.Reintern` | crates/corium-core/src/keyword.rs:142-148 | interning the durable keywords again in id order reproduces every id |
| `Sealing.Padded` | crates/corium-db/src/protect.rs:220-234 | padding appends zeros up to the next multiple, and none for no or zero multiple |
| `Sealing.PlainRoundTrip` | crates/corium-core/src/encoding.rs:112-169 | seal plaintext followed by any padding decodes to the value, a keyword to what its text parses as |
| `Sealing.AadIsInjective` | crates/corium-db/src/protect.rs:168-185 | under attribute scope the associated data determines key id, epoch, attribute and type |
| `Sealing.SealsSealable` | crates/corium-db/src/protect.rs:248-290 | sealing succeeds exactly for attributes whose last timeline entry names an installed attribute-scoped class with a held key for its current epoch, and well-typed unsealed values whose keyword is known |
| `Sealing.OpenUndoesSeal` | crates/corium-db/src/protect.rs:248-334 | opening a sealed value gives back what was sealed, for every value and any padding |
| `Sealing.OpensAfterChange` | crates/corium-db/src/protect.rs:304-334 | a sealed value stays readable after later protection changes and key rotations |
| `Sealing.ForeignIsRefused` | crates/corium-db/src/protect.rs:304-318 | a value is refused as foreign exactly when its class is nowhere in the attribute's timeline |
| `Sealing.KeywordComesBack` | crates/corium-db/src/protect.rs:248-334 | a keyword comes back as itself exactly when parsing can produce it |
| `Sealing.OpensOnlyInContext` | crates/corium-db/src/protect.rs:160-334 | a body opens only under the key, key id, epoch, attribute and type it was sealed with, and then to what was sealed |
| `Sealing.TamperedBodyFails` | crates/corium-db/src/protect.rs:304-334 | with class and key at hand, opening fails authentication exactly for bodies never sealed for their context |
| `Sealing.SealedApart` | crates/corium-db/src/protect.rs:248-290 | two values seal to one body only if a reader could not tell them apart |
| `Sealing.IdealExists` | crates/corium-db/src/protect.rs:280-284 | the assumption on the cipher can be met |
| `Sealer.BuildAad` | crates/corium-db/src/protect.rs:168-185 | the buffer holds exactly the associated data |
| `Sealer.EncodePlaintext` | crates/corium-core/src/encoding.rs:112-131 | a keyword goes by its text, a sealed value is refused |
| `Sealer.SealValue` | crates/corium-db/src/protect.rs:248-290 | the checks in order, each with its error |
| `Sealer.OpenValue` | crates/corium-db/src/protect.rs:304-334 | the value bound stands for what was opened; the durable table and every id keep their meaning |
| `Sealer.SealThenOpen` | crates/corium-db/src/protect.rs:248-334 | sealed with one interner and opened with another, a value comes back, a keyword as the same keyword under an id of the reader's |

## Left out

- The transactor, which orders transactions and keeps attribute metadata on attributes: runs apply increasing stamped transactions, and `Harmless` says what else a step must respect.
- Settle: relates the asserted instant and datoms only, not the transaction report built from them.
- FindDuplicateValues: counts are unbounded integers; the saturation of counts above 64 bits is not modelled.
- OpenValue: asks that local ids still fit 64 bits, because overflow of the id counters is not modelled.
- Doubles are their bit patterns: no arithmetic is modelled because the code does none.
- Sharing of maps and datoms by reference counting, and the cost of persistent maps: indexes are immutable maps.
- The hash behind digests and fingerprints and the cipher behind sealing: only the bytes fed to them, with an ideal cipher as a parameter.
- The plaintext cache of the hydrator, missing-key and legacy-plaintext dispositions, key resolution and key restriction.
- Mapping of principals to subjects and cache keys, audit records, break-glass access, permissions by action: a check starts from its subjects, objects and relations.
- Cardinality, component flags, idents and retirement in derived schemas, planner statistics, transaction ranges, seek from an arbitrary key, history impact counts.
- Parsing of schema files and the planner that produces plans; parsers of stable names.
- Query engine, transaction functions, SQL and console surfaces, network protocol, storage and garbage collection, sagas.

# Verified core of the memos server

The memos server stores short notes, filters them by CEL expressions compiled to SQL, keeps
attachments in configurable storages, and recognises tags, mentions and email addresses in
Markdown text. This project models the parts of it with the most logic and proves what they
promise, for all inputs, all runs or all interleavings.

`dafny verify dfyconfig.toml` checks the whole project.

## What is modelled

**The filter compiler.** A CEL expression (`CelExpr`) is built into a condition tree (`CelParser`,
`ConditionTree`), and the tree is rendered for SQLite, MySQL or Postgres. Constants fold in wrapping
64-bit arithmetic and are compared as doubles (`Rounding`); `CelNumbers` says exactly when that is
harmless, and `Support` which expressions build and which conditions render on which dialect. `Compile` says what tree
of SQL a condition stands for, with every minted placeholder recorded; class `Rendering.Renderer`
is the mutable renderer, with its placeholder counter and argument list, and refines it. SQL text is
a sequence of tokens (`SqlText`) that is parsed with the precedence NOT over AND over OR and
evaluated in three-valued logic (`Kleene`, `SqlEval`). LIKE patterns (`Like`) and tag lists are
concrete; columns, JSON values, collations, case folding, regular expressions and date parts are
functions of an abstract row and database. The chain of theorems runs from the CEL expression to
the executed query: `CelProofs.BuildPreservesMeaning`, `RenderMeaning.RenderPreservesMeaning`,
`SqlText.PrintParse`, `Statements.NumberedPlaceholdersExact` and
`Statements.PlaceholdersExact`, joined in `Queries.CompiledQueryExact`.

**The storage registry.** The storage setting is an object that normalization changes in place
(`StorageNormalize`); an update is prepared from a request and the stored setting
(`StorageService`, against `StorageUpdate`). The digest in generated identities is an injective
function of the physical namespace. `StorageSafety.RunKeepsRegistry` is the run-level theorem:
attachments keep resolving to the namespace they were written to. `StorageDefault` follows the
default through an update, `StorageSecrets` the secrets, with the exact condition for a refusal.

**The driver cache.** `DriverCache` is the protocol of lookups, slow constructions and resets under
a short lock, in every interleaving, with its 64-bit generation counter.

**Markdown lexing and splitting.** Bytes are concrete, including UTF-8 decoding (`Utf8`). The
Unicode and emoji tables are parameters with the properties the generated tables have
(`TagTables.Generated`). `TagScanner`, `TagMatches`, `TagStability` and `TagWords` treat tags, `TagHierarchy`
and `TagRename` what is made of them, `EmailProjection`, `EmailMatches`, `EmailFinder` and `EmailGrammar` email
autolinks, and `InlineSplit`, `TagSplit` and `EmailSplit` the surgery on the child list of a text
node's parent.

**Smaller machines.** `TtlCache` and `CacheRuns` are the TTL cache; `Cron`, `CronText`, `CronFields`
and `CronExpression` the scheduler's cron, from the text of an expression to the instants it stands
for; `AuthGuard` the authentication lock-out guard; `MemoPolicy` the memo write policy.

## Where the code and its documentation differ

- Comparing a JSON flag with a literal does not always read a missing key as false, as the flag
  alone does: `RenderMeaning.FlagComparisonExact` gives the exact condition.
- `all` over an empty tag list is false, CEL's `all` is true: `CelProofs.FoldBuilt`.
- An argument of a pruned subcondition stays in the argument list. MySQL then refuses the count, and
  Postgres a number that is not used, although every number that is left still reads its own value.
  The SQLite driver is taken to give the i-th question mark the i-th argument and to ignore a surplus:
  there the query runs with the wrong values, without an error, unless the surviving values happen to
  lead the argument list. `Statements.PlaceholdersExact` and `Queries.CompiledQueryExact` say exactly
  when, and `Statements.DroppedArgumentBreaksPairing` is a filter that compares the creator with a
  visibility.
- Double literals are truncated, one by one in arithmetic and again against a column, and integers
  are compared as doubles. `1.5 + 1.5 == 3.0` becomes false, and on attachments, whose `memo_id` has no
  fixed CEL type, `memo_id == 1.5` selects 1. The exact conditions for all values are `CelNumbers.FoldingExactIff`, `CelNumbers.TruncationIff` and
  `CelNumbers.LiteralComparisonIff`.
- Text tests fold case, as the filter package's README says, while CEL's own tests do not. The meaning
  of a filter used here is the folded one; `CelProofs.CaseFoldingIff` says for which texts the two agree.
- A request that swaps the namespaces of two storages leaves the default on the other entry:
  `StorageDefault.SwapMovesDefault`, with the exact condition in `StorageDefault.UpdatedDefault`.
- An `IN ()` without values is accepted by SQLite only: `Queries.RenderedAccepted`.
- The scheduler's README says that Sunday is 0 or 7 and that `0 0 1 * *` is due on the first of every
  month. In the code no date has weekday 7, and an open weekday admits every day:
  `Cron.SundayIff`, `Cron.CustomaryIff`, `CronExpression.SevenIsNoSunday`,
  `CronExpression.FirstOfMonthIsDaily`.
- A comment in the authentication guard protects the stored fallback against a later removal of the
  deployment file. It does so for proposals; deletions of providers are judged by the managed
  setting: `AuthGuard.DeletionExposesFallbackIff`.

## Model

| member | source | states |
|---|---|---|
| Like.EscapedTextIsLiteral | app/memos/internal/filter/render.go:591-595 | an escaped text in front of any pattern matches exactly itself |
| Like.PatternExact | app/memos/internal/filter/render.go:578-589 | the built LIKE pattern accepts a text if and only if the value is its prefix, suffix or infix, for any escape character but the percent sign |
| Like.StringFunctionsExact | app/memos/internal/filter/render.go:694-722 | SQLite's instr and substr forms decide the same prefix, infix and suffix predicates |
| SqlText.UnitParses | app/memos/internal/filter/render.go:803-820 | a unit is read back whole from in front of any continuation, or refused when the dialect has no syntax for a leaf |
| SqlText.PrintParse | app/memos/internal/filter/render.go:123-125 | parsing the printed tokens gives back exactly the printed tree |
| RenderMeaning.CombinedExact | app/memos/internal/filter/render.go:793-821 | pruning by trivial and unsatisfiable keeps the Kleene value of AND, OR and NOT |
| Kleene.ConnectivesExact | app/memos/internal/filter/render.go:793-821 | a connective is definite exactly when it has that value whatever its UNKNOWN operands turn out to be |
| RenderMeaning.RenderedIsUnit | app/memos/internal/filter/render.go:91-126 | every rendered condition is parenthesized enough to stand beside any connective |
| RenderMeaning.ElementTreeExact | app/memos/internal/filter/render.go:667-722 | the element condition of a list macro decides its predicate on every tag and dialect |
| RenderMeaning.ComprehensionExact | app/memos/internal/filter/render.go:610-665 | the EXISTS and COUNT subqueries mean some, non-empty and every, and exactly one |
| RenderMeaning.TagInExact | app/memos/internal/filter/render.go:442-475 | the disjunction for a tag list is true if and only if a listed tag is among the tags |
| RenderMeaning.ListedExact | app/memos/internal/filter/render.go:502-532 | a scalar IN list has the Kleene value of equality with some listed literal |
| RenderMeaning.TextMatchExact | app/memos/internal/filter/render.go:534-576 | case-folded LIKE decides the text match on the folded texts |
| RenderMeaning.FlagComparisonExact | app/memos/internal/filter/render.go:365-418 | a JSON flag comparison means what the condition means if and only if the key holds a boolean or the dialect's form reads its absence as false |
| RenderMeaning.AbsentFlagFails | app/memos/internal/filter/render.go:365-418 | on Postgres comparing an absent flag with false is UNKNOWN, where the flag alone reads as false |
| RenderMeaning.AtomExact | app/memos/internal/filter/render.go:61-89 | every atomic condition keeps its three-valued meaning |
| RenderMeaning.RenderPreservesMeaning | app/memos/internal/filter/render.go:61-126 | on every row the rendered SQL has exactly the three-valued meaning of the condition tree, trivial as TRUE and unsatisfiable as FALSE |
| Support.RendersIff | app/memos/internal/filter/render.go:61-126 | a condition renders on a dialect if and only if every part of it is one the dialect can express, stated by kind of field, operator and literal |
| Support.TagInSearchesTarget | app/memos/internal/filter/render.go:442-475 | `tag in [...]` looks for the texts in the list that `tag` is an alias for, and in the list `tag` itself where it is none |
| Support.SizeMeasuresTarget | app/memos/internal/filter/render.go:257-301 | `size(x)` compares the length of the list or text that x stands for |
| Support.FlagArgument | app/memos/internal/filter/render.go:832-845 | a boolean column is compared with a boolean argument, on SQLite with 1 or 0 |
| Binding.RenderedParams | app/memos/internal/filter/render.go:823-845 | every surviving placeholder holds the value it was minted for, and none is missing exactly when no argument was dropped |
| Statements.NumberedPlaceholdersExact | app/memos/internal/filter/render.go:823-830 | on Postgres every surviving numbered placeholder reads its own value, wherever the arguments sit in the query's list |
| Statements.PlaceholdersExact | app/memos/internal/filter/render.go:793-830 | placeholders bind as minted if no argument-bearing part was pruned; otherwise MySQL and Postgres refuse the statement, and SQLite binds the leading arguments, as minted exactly when the values of the undecided parts lead the argument list |
| Statements.DroppedArgumentBreaksPairing | app/memos/internal/filter/render.go:793-806 | a concrete condition that MySQL and Postgres refuse, and in which SQLite compares the creator with the visibility |
| Rendering.FlagsExclusive | app/memos/internal/filter/render.go:18-22 | the two flags never hold together, and a result that is not trivial has text |
| Rendering.CombineStands | app/memos/internal/filter/render.go:793-821 | combining two results refines combining the shapes they stand for |
| Rendering.Renderer.AddArg | app/memos/internal/filter/render.go:823-830 | appends the value and mints the placeholder of its position |
| Rendering.Renderer.TagElementText | app/memos/internal/filter/render.go:694-722 | emits the element text condition and appends its arguments in order |
| Rendering.Renderer.RenderComparison | app/memos/internal/filter/render.go:157-183 | refines the compilation of a comparison, errors included |
| Rendering.Renderer.RenderTagComprehension | app/memos/internal/filter/render.go:610-665 | refines the compilation of a list macro |
| Rendering.Renderer.RenderTagInList | app/memos/internal/filter/render.go:442-475 | the loop over listed tags refines the disjunction of their subqueries |
| Rendering.Renderer.RenderScalarInCondition | app/memos/internal/filter/render.go:502-532 | the loop over listed values refines one IN atom, and fails on a value of the wrong type |
| Rendering.Renderer.RenderCondition | app/memos/internal/filter/render.go:61-89 | the recursive rendering refines the compilation to a tree, with exactly its arguments appended |
| Rendering.Renderer.Render | app/memos/internal/filter/render.go:32-59 | the statement of a fresh renderer, an unsatisfiable condition as `1 = 0` and a trivial one as empty text |
| CelNumbers.FoldingWraps | app/memos/internal/filter/parser.go:513-587 | folding computes the unbounded result wrapped once to int64, however often it wrapped on the way |
| CelNumbers.FoldingExactIff | app/memos/internal/filter/parser.go:513-587 | within int64, folding computes the exact number if and only if the truncated fractions and remainders cancel |
| CelNumbers.WholeLiteralsFoldExactly | app/memos/internal/filter/parser.go:513-587 | nothing is lost when every literal is whole and only integers are divided |
| CelNumbers.DivisionTruncates | app/memos/internal/filter/parser.go:555-587 | what a folded division leaves is smaller than the divisor and has the sign of the dividend |
| CelNumbers.TextBeforeIff | app/memos/internal/filter/parser.go:214-230 | texts are ordered by the first character in which they differ, a prefix first |
| CelNumbers.TextsOrderedExact | app/memos/internal/filter/parser.go:214-230 | the operators on texts follow that order |
| CelNumbers.WrapsToInt64 | app/memos/internal/filter/parser.go:517-589 | folding wraps to the 64-bit two's complement |
| CelNumbers.SecondsExact | app/memos/internal/filter/parser.go:589-644 | an instant or a duration in nanoseconds stands for its seconds, fraction included |
| CelProofs.TruncatedSumFails | app/memos/internal/filter/parser.go:517-560 | the filter `1.5 + 1.5 == 3.0` is built to FALSE although it means TRUE |
| CelNumbers.RoundingIff | app/memos/internal/filter/render.go:338-343 | comparing every integer column value with n instead of r is harmless if and only if n is r or the operator does not separate them |
| CelNumbers.TruncationIff | app/memos/internal/filter/render.go:875-894 | truncating a double literal against a column is harmless for every column value if and only if it is whole or the operator matches its sign |
| CelProofs.TruncatedLiteralFails | app/memos/internal/filter/render.go:338-343 | a filter `memo_id == 1.5`, on any integer column that admits `==`, builds, renders and selects a row whose column is 1 |
| Rounding.RoundMonotone | app/memos/internal/filter/parser.go:250-258 | widening an integer to the nearest double keeps the order |
| Rounding.RoundsToNearest | app/memos/internal/filter/parser.go:250-258 | widening an integer gives a double, no double is nearer, and a tie goes to an even significand |
| CelNumbers.LiteralComparisonIff | app/memos/internal/filter/parser.go:195-260 | comparing two literals gives the true comparison if and only if their doubles differ, or they are equal, or the operator does not tell |
| CelNumbers.SmallLiteralsHarmless | app/memos/internal/filter/parser.go:242-260 | magnitudes up to 2^53 are compared exactly |
| CelNumbers.LargeLiteralsCollapse | app/memos/internal/filter/parser.go:242-260 | 2^53 and its successor compare as equal |
| CelParser.DistinctStrings | app/memos/internal/filter/parser.go:791-801 | the loop with its seen set keeps the first occurrence of each string |
| CelParser.CombineConditions | app/memos/internal/filter/parser.go:783-789 | the loop chains conditions to the left |
| CelParser.MapConditions | app/memos/internal/filter/parser.go:775-781 | one membership condition per value, in order |
| CelParser.BuildSetCondition | app/memos/internal/filter/parser.go:703-773 | a set function becomes a chain of memberships over distinct values, with a size test for equivalence, or is refused |
| CelProofs.MirrorKeepsComparison | app/memos/internal/filter/parser.go:178-193 | mirroring the operator makes up for swapping the operands |
| CelProofs.ComparisonBuilt | app/memos/internal/filter/parser.go:119-176 | the built comparison has the value of the source comparison on every row, through folding and swapping |
| CelProofs.InBuilt | app/memos/internal/filter/parser.go:262-309 | the built IN condition has the value of the source membership |
| CelProofs.ContainsExact | app/memos/internal/filter/parser.go:703-773 | sets.contains means subset |
| CelProofs.IntersectsExact | app/memos/internal/filter/parser.go:703-773 | sets.intersects means a common element |
| CelProofs.EquivalentBySize | app/memos/internal/filter/parser.go:703-773 | containment at equal size is set equality without repeated tags, by the pigeonhole argument |
| CelProofs.EquivalentExact | app/memos/internal/filter/parser.go:703-773 | sets.equivalent means set equality if and only if the tag list repeats no tag |
| CelProofs.CaseFoldingIff | app/memos/internal/filter/render.go:562-576 | the case-folded test agrees with the case-sensitive one on every text if and only if no character of the searched text has another case |
| CelProofs.FoldBuilt | app/memos/internal/filter/parser.go:803-916 | a detected macro means what its fold computes, except `all` on an empty list, which is exactly where they differ |
| CelProofs.BuildPreservesMeaning | app/memos/internal/filter/parser.go:18-117 | every expression that builds and renders means, on every row, what its condition tree means |
| CelProofs.PlainBuildsExactly | app/memos/internal/filter/parser.go:18-117 | a filter without arithmetic, fractions, `sets.equivalent` and `all` keeps its meaning on every row and at every time |
| Support.BuildsIff | app/memos/internal/filter/parser.go:18-117 | an expression builds if and only if its parts are supported, stated by the fields and constants in them |
| Support.TextTestBuilds | app/memos/internal/filter/parser.go:311-376 | a text test on a field with a literal builds exactly when the field supports it, and means that test on the literal |
| Support.AliasTakesOperators | app/memos/internal/filter/schema.go:75-88 | a comparison with an alias builds exactly when its target admits the operator |
| Support.CompilesIff | app/memos/internal/filter/engine.go:48-109 | which filters compile to a statement on which dialect |
| Support.ListsAndTextsRender | app/memos/internal/filter/parser.go:703-917 | set functions, list macros and text tests render on every dialect once they build |
| Queries.RenderedAccepted | app/memos/internal/filter/render.go:61-126 | every form that is rendered is one that the dialect has with the meaning given to it, no EXISTS over list elements on MySQL among them; outside SQLite a text is refused exactly when it keeps an empty IN list |
| Queries.QueryParts.AppendConditions | app/memos/internal/filter/helpers.go:9-25 | the loop over filters appends clauses and arguments, each filter numbered behind the arguments before it |
| Queries.FilterAppended | app/memos/internal/filter/helpers.go:9-25 | appending one statement conjoins its meaning to the query, its placeholders shifted to its arguments |
| Queries.CompiledQueryExact | app/memos/internal/filter/helpers.go:9-25 | executing the joined text with the collected arguments yields the conjunction of the filters' meanings if every filter can be carried; otherwise it is an error on MySQL and Postgres, while SQLite gives the placeholders the leading arguments, with the same conjunction when those are the values they were minted for |
| StorageModel.NamespaceEqualExact | app/memos/store/storage.go:350-367 | namespace equality of storages is equality of their normalized namespaces |
| StorageModel.GeneratedIdTruthful | app/memos/store/storage.go:406-430 | a generated identity names the namespace it was generated from |
| StorageModel.EndpointIff | app/memos/store/storage.go:548-550 | an endpoint is stripped of surrounding white space and of the slashes behind it, and of nothing else |
| Texts.TrimmedIff | app/memos/store/storage.go:548-550 | trimming takes off the white space on both sides and nothing else |
| StorageNormalize.InstanceStorageSetting.DropRepeats | app/memos/store/storage.go:30-43 | keeps the first storage of each identity, normalized |
| StorageNormalize.InstanceStorageSetting.RegisterLegacy | app/memos/store/storage.go:44-72 | registers the legacy configuration and selects the legacy default |
| StorageNormalize.InstanceStorageSetting.EnsureDefault | app/memos/store/storage.go:74-82 | an empty registry gets the built-in default, and a dangling default the first entry |
| StorageNormalize.InstanceStorageSetting.MoveDefaultFirst | app/memos/store/storage.go:490-502 | the in-place rotation that brings the default to the front |
| StorageNormalize.InstanceStorageSetting.SynchronizeLegacyFields | app/memos/store/storage.go:504-523 | the legacy type and configuration mirror the default |
| StorageNormalize.InstanceStorageSetting.Normalize | app/memos/store/storage.go:25-86 | the whole normalization in place equals its specification |
| StorageNormalize.RotationKeeps | app/memos/store/storage.go:490-502 | the rotation keeps the multiset and the order of the other entries |
| StorageNormalize.DefaultFirstKeeps | app/memos/store/storage.go:490-502 | moving the default first keeps every entry and puts the default at the head |
| StorageNormalize.NormalForm | app/memos/store/storage.go:25-86 | normalization ends with a non-empty list of named entries, the default first, mirrored by the legacy fields |
| StorageNormalize.NormalizedDistinct | app/memos/store/storage.go:44-72 | identities are distinct afterwards if and only if no generated identity collides with a configured one |
| StorageResolve.EntryCompleted | app/memos/store/storage.go:391-448 | an entry without type, identity or name is completed from its configuration or kind, a complete one stays |
| StorageResolve.LegacySettingEndsWith | app/memos/store/storage.go:369-385 | a setting without a registry ends with the storage that its legacy fields select as the default, local for an unset type, and the S3 configuration behind it |
| StorageResolve.NormalizedIdempotent | app/memos/store/storage.go:25-86 | normalization is idempotent for settings with configuration exactly on S3 entries and truthful identities |
| StorageResolve.UntruthfulIdRepeats | app/memos/store/storage.go:51-55 | a configured identity that is the digest of another namespace makes normalization append a repeated identity |
| StorageResolve.AttachmentsKeepResolving | app/memos/store/storage.go:210-249 | over every run of updates an attachment resolves to its identity and to the same namespace |
| StorageResolve.LegacyAttachmentNamespace | app/memos/store/storage.go:225-249 | an attachment with an embedded configuration and no registered identity resolves to the namespace of that configuration |
| StorageResolve.BareAttachmentNamespace | app/memos/store/storage.go:225-249 | one without a configuration of its own resolves to the namespace of the legacy configuration, and to nothing exactly when there is none |
| StorageResolve.SecretsStayScoped | app/memos/store/storage.go:151-166 | a backfilled secret comes from the same unmoved entry or from a storage of the same endpoint, region and access key |
| StorageSecrets.EditedExactly | app/memos/store/storage.go:138-166 | what the edit of an entry changes: its identity exactly when it moves, and an empty secret to the one that is stored for it |
| StorageSecrets.SecretIsKept | app/memos/store/storage.go:151-154 | an entry edited in place with an empty secret keeps the stored secret, whatever its new name |
| StorageSecrets.SecretIsFound | app/memos/store/storage.go:154-166 | an entry not edited in place gets a secret if and only if one is stored for its endpoint, region and access key, or in a legacy request for its access key |
| StorageSecrets.EditInPlaceIsStored | app/memos/store/storage.go:88-208 | an accepted update stores an undisputed entry that is edited in place under its identity as the request states it, with the stored secret where the request has none |
| StorageSecrets.AcceptedIff | app/memos/store/storage.go:88-208 | an update is accepted if and only if its default is known, its named entries are well-formed, and no entry that stays lacks its secret; each refusal with its error |
| StorageSecrets.FirstSettingIff | app/memos/store/storage.go:88-121 | without a stored setting an update is accepted if and only if its default is among its entries or unset and named entries are well-formed |
| StorageSafety.NormalizedKeeps | app/memos/store/storage.go:25-86 | normalization keeps a sound registry sound, and every identity its namespace |
| StorageSafety.EditedEntrySafe | app/memos/store/storage.go:138-166 | an edited entry is either unmoved or re-identified to its own namespace |
| StorageSafety.CompletedSafe | app/memos/store/storage.go:138-204 | after edits, repeats and preservation every stored identity still has its namespace |
| StorageSafety.UpdateKeepsRegistry | app/memos/store/storage.go:88-208 | one accepted update keeps the registry sound and every stored identity resolving |
| StorageSafety.RunKeepsRegistry | app/memos/store/storage.go:88-208 | over every run of updates an identity once registered keeps resolving to the same physical namespace |
| StorageSafety.RunsCompose | app/memos/store/storage.go:88-208 | a run of one request stores what is accepted, and runs compose |
| StorageDefault.DefaultStaysIff | app/memos/store/storage.go:137-149 | the default ends with the entry that held it last, and that is the request's default entry if and only if no later re-identified entry carried its new identity |
| StorageDefault.SwapMovesDefault | app/memos/store/storage.go:137-149 | an update that swaps the namespaces of two storages is accepted, and stores as default the storage that the request did not name |
| StorageDefault.UpdatedDefault | app/memos/store/storage.go:88-208 | the same for the default that an accepted update stores, through matching, repeats and both normalizations |
| StorageDefault.MatchedExactly | app/memos/store/storage.go:127-136 | the default of a request without named storages takes over the identity of the first stored storage with its namespace, and nothing else changes |
| StorageUpdate.ValidateIff | app/memos/store/storage.go:525-546 | a request is accepted if and only if its entries are present, identified, typed, configured and distinct, with the default among them |
| StorageService.ValidateRequest | app/memos/store/storage.go:525-546 | the validation loop with its seen set reports the first defect of a request |
| StorageService.IndexStored | app/memos/store/storage.go:122-125 | the index finds the stored entry of each identity |
| StorageService.EditEntries | app/memos/store/storage.go:138-167 | the in-place loop re-identifies moved entries, backfills secrets and follows the default |
| StorageSafety.RepeatsResolved | app/memos/store/storage.go:169-185 | of the entries with one identity exactly one stays, the first re-identified one if there is any and the first otherwise |
| StorageService.ResolveRepeats | app/memos/store/storage.go:169-185 | the loop with its index resolves the repeats as StorageSafety.RepeatsResolved says |
| StorageService.AppendPreserved | app/memos/store/storage.go:196-204 | stored entries that the request does not repeat are appended |
| StorageService.PrepareUpdate | app/memos/store/storage.go:88-208 | the whole update, in place on request and stored setting, equals its specification, errors included |
| DriverCache.StorageDriverCache.Lookup | app/memos/store/storage.go:279-285 | the first critical section reads the generation and the cached driver |
| DriverCache.StorageDriverCache.Publish | app/memos/store/storage.go:292-307 | the second critical section prefers a cached driver, refuses to cache after a reset, and else caches |
| DriverCache.StorageDriverCache.ResetAll | app/memos/store/storage.go:319-327 | a reset advances the 64-bit generation and empties the cache |
| DriverCache.StepKeeps | app/memos/store/storage.go:270-327 | every step of every call keeps the invariant of the protocol |
| DriverCache.RunIsSound | app/memos/store/storage.go:270-327 | every interleaving of lookups, constructions, publications and resets keeps it |
| DriverCache.CachedIsCurrent | app/memos/store/storage.go:297-306 | a cached driver was built by a call that missed in the current generation, under the fingerprint of its own configuration |
| DriverCache.ServedIsFresh | app/memos/store/storage.go:270-308 | a served driver has the caller's fingerprint and was built by a miss no earlier than the caller's lookup, up to 2^64 resets |
| DriverCache.SharedUntilReset | app/memos/store/storage.go:294-307 | until the next reset everyone who asks for a cached key shares its driver |
| DriverCache.HitIsServed | app/memos/store/storage.go:270-290 | a request for a cached key is served from the cache without a construction |
| DriverCache.MissIsBuilt | app/memos/store/storage.go:270-308 | an undisturbed call for another key builds, caches and serves its driver, and a failed construction caches nothing |
| DriverCache.StaleCachedIffWrapped | app/memos/store/storage.go:297-306 | a stale driver is cached exactly when the resets in between bring the counter back to where it was |
| Utf8.DecodeRune | app/memos/internal/markdown/parser/tag.go:114-117 | the first rune of a byte text, its size within the text, ASCII exactly for ASCII bytes |
| Utf8.DecodesEncoded | app/memos/internal/markdown/parser/tag.go:114-117 | decoding undoes encoding for every scalar value, whatever follows |
| Utf8.DecodedIsEncoded | app/memos/internal/markdown/parser/tag.go:114-117 | whatever decodes is the encoding of its code point |
| Utf8.DecodesIff | app/memos/internal/markdown/parser/tag.go:114-117 | a text decodes to a rune if and only if it starts with the encoding of one |
| TagTables.ContainsCodePoint | app/memos/internal/markdown/parser/tag.go:26-41 | binary search agrees with membership in some range, on every ordered table |
| TagTables.LongestEmojiExact | app/memos/internal/markdown/parser/tag.go:78-95 | the reference result is in the table and no longer prefix is |
| TagTables.MatchFullyQualifiedEmoji | app/memos/internal/markdown/parser/tag.go:78-95 | the rune-by-rune walk returns the length of the longest table entry that the text starts with |
| TagScanner.ReferenceUnique | app/memos/internal/markdown/parser/tag.go:189-225 | a text starts with at most one character reference |
| TagScanner.NumericReferenceLength | app/memos/internal/markdown/parser/tag.go:194-212 | the digit loop finds exactly the decimal or hexadecimal reference in front |
| TagScanner.CharacterReferenceLength | app/memos/internal/markdown/parser/tag.go:189-225 | returns the length of the reference the text starts with, 0 exactly when there is none |
| Characters.ClassesExact | app/memos/internal/markdown/parser/tag.go:189-225 | the bytes that count as digits, letters and punctuation, as characters |
| Characters.SignsExact | app/memos/internal/markdown/parser/tag.go:189-260 | the signs the scanners look for, as characters |
| Characters.SegmentSignsExact | app/memos/internal/markdown/parser/tag.go:55-65 | the signs and apostrophes of a segment |
| TagScanner.ScanTagSegment | app/memos/internal/markdown/parser/tag.go:97-168 | the two loops compute the segment: skipped marks, a starter, and every unit that continues it |
| TagMatches.ScanTagIdentifier | app/memos/internal/markdown/parser/tag.go:170-187 | the loop joins segments at slashes for as long as a segment follows |
| TagMatches.FindTagMatches | app/memos/internal/markdown/parser/tag.go:227-260 | the loop reports exactly the matches of the run, in order |
| TagMatches.SegmentSound | app/memos/internal/markdown/parser/tag.go:97-168 | a segment's value is non-empty, holds no slash and is read off the bytes it spans |
| TagMatches.WithMoreSound | app/memos/internal/markdown/parser/tag.go:170-187 | every further segment keeps the identifier sound |
| TagMatches.MatchesAreSound | app/memos/internal/markdown/parser/tag.go:227-260 | matches are in bounds, in order and disjoint, start at a hash, and their values are non-empty segments between slashes and subsequences of their source |
| TagStability.UnitOfPrefix | app/memos/internal/markdown/parser/tag.go:105-117 | cutting the source behind a unit does not change how the unit is seen |
| TagStability.ExtendedOfPrefix | app/memos/internal/markdown/parser/tag.go:137-167 | a scan ends the same way in source cut at its end or at a slash, apostrophe lookahead included |
| TagStability.SpellingIsTag | app/memos/internal/markdown/parser/tag.go:227-260 | the spelling of a match, scanned on its own, is exactly that one tag |
| TagWords.PathIsTag | app/memos/internal/markdown/parser/tag.go:97-260 | a hash and words of identifier characters with slashes between them are one tag, whose value is everything behind the hash |
| TagWords.VoilaIsTag | app/memos/internal/markdown/parser/tag.go:97-260 | `#voilà` is one tag with all of its letters |
| Texts.SplitJoin | app/memos/internal/markdown/parser/tag.go:176-184 | splitting at the separator undoes joining parts that do not hold it |
| Texts.JoinSplit | app/memos/internal/markdown/parser/tag.go:176-184 | joining undoes splitting, for every text |
| TagHierarchy.AppendTagHierarchy | app/memos/internal/markdown/markdown.go:160-169 | the loop appends the paths of the first parts, shortest first |
| TagHierarchy.HierarchyExact | app/memos/internal/markdown/markdown.go:160-169 | the appended paths are exactly the value and its prefixes in front of a slash |
| TagHierarchy.HierarchyOfTag | app/memos/internal/markdown/markdown.go:160-169 | for a tag every path is a tag value, and each extends the one before by the next segment |
| TagRename.RenameRanges | app/memos/internal/markdown/markdown.go:581-591 | the buffer loop replaces exactly the ranges by the new spelling |
| TagRename.SpliceUndone | app/memos/internal/markdown/markdown.go:581-591 | the new texts lie in the moved ranges, and putting the old ones back restores the content |
| TagRename.RenameToItself | app/memos/internal/markdown/markdown.go:581-591 | replacing each range by its own text changes nothing |
| EmailProjection.ProjectGFMEmailText | app/memos/internal/markdown/parser/gfm_email.go:25-56 | the loop builds the decoded text and, for every byte, where its unit starts and ends |
| EmailMatches.UnitsOfStretch | app/memos/internal/markdown/parser/gfm_email.go:25-56 | any run of units is what its own stretch of source projects to |
| EmailMatches.ArraysLeadBack | app/memos/internal/markdown/parser/gfm_email.go:33-52 | the arrays lead each decoded byte back to its unit |
| EmailMatches.ProjectionTiles | app/memos/internal/markdown/parser/gfm_email.go:25-56 | the starts and ends are monotone: two bytes come from one unit or from units in order |
| EmailMatches.NeighboursMeet | app/memos/internal/markdown/parser/gfm_email.go:25-56 | neighbouring units meet and the units span the source, if no reference decodes to nothing |
| EmailMatches.ReprojectedIff | app/memos/internal/markdown/parser/gfm_email.go:71-76 | projecting the source range of decoded bytes gives them back if and only if the stretch is cut along units |
| EmailFinder.DomainEnds | app/memos/internal/markdown/parser/gfm_email.go:10-10 | a domain, the longest match of the pattern, ends in a letter or digit and is followed by none |
| EmailFinder.EmailUnique | app/memos/internal/markdown/parser/gfm_email.go:109-133 | there is at most one email around an at sign |
| EmailFinder.MatchProjectedGFMEmailAt | app/memos/internal/markdown/parser/gfm_email.go:109-140 | finds the email around an at sign: longest local part, domain not cut short; fails exactly when there is none |
| EmailFinder.SpansInOrder | app/memos/internal/markdown/parser/gfm_email.go:59-81 | emails in the decoded text are in bounds, in order and disjoint |
| EmailFinder.FindGFMEmailMatches | app/memos/internal/markdown/parser/gfm_email.go:59-81 | the loop reports exactly the emails of the decoded text with their source ranges |
| EmailGrammar.AddressAlone | app/memos/internal/markdown/parser/gfm_email.go:109-140 | every address, spelled in characters, is one email from its first to its last character |
| EmailGrammar.SpansAreWritten | app/memos/internal/markdown/parser/gfm_email.go:109-140 | whatever the finder reports is such an address |
| EmailGrammar.AddressMatched | app/memos/internal/markdown/parser/gfm_email.go:59-81 | in a source that consists of an address the finder reports just that |
| EmailGrammar.JohnDoeMatched | app/memos/internal/markdown/parser/gfm_email.go:59-81 | `john.doe@example.com` is one email with that address |
| EmailFinder.SpansAreClean | app/memos/internal/markdown/parser/gfm_email.go:59-81 | no email begins or ends inside an escape or a character reference |
| EmailFinder.AddressReadBack | app/memos/internal/markdown/parser/gfm_email.go:71-76 | projecting the source range of a match gives exactly its address |
| EmailFinder.MatchesDisjoint | app/memos/internal/markdown/parser/gfm_email.go:71-76 | the source ranges of the matches are disjoint and in order |
| InlineSplit.Parent.InsertBefore | app/memos/internal/markdown/extensions/tag.go:142-150 | a node comes directly before the given one, all others stay |
| InlineSplit.Parent.RemoveChild | app/memos/internal/markdown/extensions/tag.go:139-139 | exactly the given node leaves the child list |
| InlineSplit.ReplaceInlineMatches | app/memos/internal/markdown/extensions/gfm.go:302-323 | the child list keeps its other nodes, and the text node is replaced by the pieces of the split |
| InlineSplit.PiecesConserve | app/memos/internal/markdown/extensions/mention.go:50-82 | the values of the pieces, in order, make up the value of the original, padding included |
| InlineSplit.PaddingIsBlank | app/memos/internal/markdown/extensions/mention.go:50-82 | the padding of a segment reads as spaces in front of its source bytes |
| InlineSplit.ConservedIff | app/memos/internal/markdown/extensions/gfm.go:302-323 | the pieces of overlapping matches spell the original if and only if no byte is cut out twice |
| InlineSplit.PiecesShaped | app/memos/internal/markdown/extensions/tag.go:99-150 | only a final text piece carries the line breaks, no other piece is empty, and the raw mark is kept |
| InlineSplit.PiecesHoldMatches | app/memos/internal/markdown/extensions/gfm.go:302-323 | the nodes among the pieces that are not text are exactly the matches |
| InlineSplit.LastIsAtomOrText | app/memos/internal/markdown/extensions/gfm.go:319-321 | a final text piece is there exactly when text or a line break is left |
| TagSplit.TagsBehindPadding | app/memos/internal/markdown/extensions/tag.go:109-111 | no tag begins in the padding of a text node |
| TagSplit.ReplaceTagsInText | app/memos/internal/markdown/extensions/tag.go:99-140 | the tags of the padded value, moved to the source, replace the text node |
| TagSplit.TagsConserve | app/memos/internal/markdown/extensions/tag.go:99-140 | the new nodes spell what the text node spelled, and each tag node's source starts at a hash and yields its value |
| EmailSplit.ReplaceGFMEmailsInText | app/memos/internal/markdown/extensions/gfm.go:278-300 | the emails of the node's stretch, moved to the source, replace the text node |
| EmailSplit.EmailsConserve | app/memos/internal/markdown/extensions/gfm.go:278-323 | the new nodes spell exactly what the text node spelled, the email nodes among them are exactly the emails found, and the source of each projects to its address |
| TtlCache.Cache.SetDefault | app/memos/store/cache/cache.go:92-95 | stores the entry with the configured lifetime |
| TtlCache.Cache.SetWithTtl | app/memos/store/cache/cache.go:97-120 | stores the entry, counts new keys only, and evicts when over the limit |
| TtlCache.Cache.Lookup | app/memos/store/cache/cache.go:122-147 | a hit returns the entry, an expired one is dropped and counted off |
| TtlCache.Cache.Remove | app/memos/store/cache/cache.go:149-160 | drops a present key and counts it off |
| TtlCache.Cache.RemoveAll | app/memos/store/cache/cache.go:162-179 | ends with no entry and counter zero |
| TtlCache.Cache.RemoveExpired | app/memos/store/cache/cache.go:217-250 | drops exactly the entries that are expired at the clock reading taken for each of them, and counts them off |
| TtlCache.Cache.Considered | app/memos/store/cache/cache.go:272-296 | one more entry keeps the candidates the oldest of those seen |
| TtlCache.Cache.CleanupOldest | app/memos/store/cache/cache.go:252-313 | evicts a subset of threshold size, none of which outlives a survivor, whatever the iteration order |
| TtlCache.EvictsOldest | app/memos/store/cache/cache.go:252-313 | removing the final candidates is such an eviction |
| CacheRuns.StepKeepsCount | app/memos/store/cache/cache.go:97-179 | every operation keeps the counter equal to the number of entries and within the limit |
| CacheRuns.RunKeepsCount | app/memos/store/cache/cache.go:97-313 | so does every sequential run |
| CacheRuns.EvictionLeavesFourFifths | app/memos/store/cache/cache.go:252-313 | a new key beyond the limit leaves about four fifths of the limit |
| CacheRuns.BelowLimitAllStay | app/memos/store/cache/cache.go:97-120 | below the limit, or for a known key, nothing is evicted |
| CacheRuns.HitIsLastSet | app/memos/store/cache/cache.go:122-147 | a hit returns what was last set under the key, not deleted, cleared or expired |
| CacheRuns.UnlimitedHitIff | app/memos/store/cache/cache.go:97-147 | without a limit and with a monotone clock a lookup hits if and only if such a value exists |
| Cron.Next | app/memos/internal/scheduler/parser.go:91-118 | the least aligned instant behind the input that the schedule matches, none exactly when nothing is due before the four-year cap |
| Cron.CustomaryIff | app/memos/internal/scheduler/parser.go:121-127 | the OR of day and weekday agrees with customary cron if and only if both fields are restricted or the restricted one admits every date |
| Cron.SundayIff | app/memos/internal/scheduler/parser.go:82-86 | a weekday field treats 7 as Sunday exactly when it names 0 as well or does not name 7 |
| CronExpression.SevenIsNoSunday | app/memos/internal/scheduler/parser.go:30-127 | the text `0 0 1 * 7` is accepted and is due on the first of the month and on no other Sunday |
| CronText.AtoiIff | app/memos/internal/scheduler/parser.go:137-177 | a number is a fitting sign, leading zeros and decimal digits of a 64-bit value, and nothing else |
| CronText.ParseField | app/memos/internal/scheduler/parser.go:130-179 | the field parser with its loop over list parts computes the parse that CronFields.FieldReads characterises |
| CronFields.SpellsIff | app/memos/internal/scheduler/parser.go:130-179 | every text spells at most one field, and reading it finds exactly that one |
| CronFields.FieldReads | app/memos/internal/scheduler/parser.go:130-225 | every text is accepted if and only if it spells a field whose numbers fit, and its matcher accepts exactly the values that field stands for |
| CronFields.WrittenSpells | app/memos/internal/scheduler/parser.go:130-179 | a field written in plain decimals spells that field |
| Texts.FieldsIff | app/memos/internal/scheduler/parser.go:35-35 | the white-space separated words are the only ones that the text can be spaced out from |
| Texts.WhiteSpaceExact | app/memos/internal/scheduler/parser.go:35-35 | the characters that count as white space |
| CronExpression.ParseCronExpression | app/memos/internal/scheduler/parser.go:30-89 | computes, from the text, the schedule that CronExpression.ExpressionReads characterises |
| CronExpression.ExpressionReads | app/memos/internal/scheduler/parser.go:30-127 | every text is accepted if and only if it spells an expression of five or six fields that all fit, and its schedule matches exactly the instants that expression stands for |
| CronExpression.SpellingUnique | app/memos/internal/scheduler/parser.go:30-89 | a text spells at most one expression |
| CronExpression.FirstOfMonthIsDaily | app/memos/internal/scheduler/parser.go:30-127 | the text `0 0 1 * *` is accepted and is due at every midnight |
| AuthGuard.CollectUids | app/memos/store/auth_config.go:98-112 | the loop collects the uids of the providers that remain |
| AuthGuard.ValidateMutation | app/memos/store/auth_config.go:88-144 | refuses exactly undecodable settings, and mutations that take the guarded configuration from safe to unsafe |
| AuthGuard.ProposalAcceptedIff | app/memos/store/auth_config.go:114-142 | a proposed setting is accepted exactly when users can still sign in with it or could not before |
| AuthGuard.DeletionAcceptedIff | app/memos/store/auth_config.go:125-142 | a deletion is accepted exactly when passwords are allowed, another provider stays, or there was none |
| AuthGuard.AuthStore.Attempt | app/memos/store/db/sqlite/auth_config.go:25-83 | one transaction validates and applies together or changes nothing |
| AuthGuard.AuthStore.Apply | app/memos/store/auth_config.go:69-86 | up to three attempts apply an accepted mutation once, or leave the state unchanged |
| AuthGuard.RunKeepsSafe | app/memos/store/auth_config.go:88-148 | with a fixed deployment file no run of mutations takes a safe configuration to an unsafe one |
| AuthGuard.RunsCompose | app/memos/store/auth_config.go:69-86 | a run of one mutation applies it if it is accepted, and runs compose |
| AuthGuard.ProposalsKeepFallback | app/memos/store/auth_config.go:114-123 | under a managed setting proposals never make the stored fallback unsafe |
| AuthGuard.DeletionExposesFallbackIff | app/memos/store/auth_config.go:125-142 | exactly when an accepted deletion makes the stored fallback unsafe |
| MemoPolicy.CreatedSound | app/memos/store/memo.go:193-207 | creation accepts exactly memos with a valid uid, a valid audience, and a space where the audience is one |
| MemoPolicy.RunKeepsAudience | app/memos/store/memo.go:258-335 | no run of writes, moves and shares leaves a SPACE memo without a space or with an active share |
| MemoPolicy.CreatedRunIsSound | app/memos/store/memo.go:193-335 | from an accepted creation on, no run of writes, moves and shares takes a memo out of these rules |
| MemoPolicy.WriteEffect | app/memos/store/memo.go:258-335 | a write takes effect exactly when the author may act and the written memo keeps the audience rules |
| MemoPolicy.ShareEffect | app/memos/store/memo.go:258-335 | a share takes effect exactly when the author may act, the policy covers more than the lifecycle, and the memo is normal and not for a space audience |
| MemoPolicy.RefusalNamesCause | app/memos/store/memo.go:258-335 | the error of a refusal names a rule that the write breaks |
| MemoPolicy.EndEffect | app/memos/store/memo.go:258-335 | ending the shares of a memo changes nothing else |
| MemoPolicy.RunsCompose | app/memos/store/memo.go:258-335 | a run of one action takes that step, and runs compose |
| MemoPolicy.OthersChangeNothing | app/memos/store/memo.go:258-335 | no run in which the author does nothing changes the memo or adds a share |
| MemoPolicy.ExMembersOnlyLeave | app/memos/store/memo.go:258-322 | runs without any membership leave a memo of a space as it is, unless they take it out of every space |
| MemoPolicy.AudienceStaysUntilNamed | app/memos/store/memo.go:306-335 | a SPACE memo keeps its space and audience over every run in which no write names another audience |
| MemoPolicy.WriteNeedsAuthor | app/memos/store/memo.go:260-300 | only the author changes a memo, and a former member of its space can only move it away |
| MemoPolicy.MoveNamesAudience | app/memos/store/memo.go:313-319 | moving a SPACE memo always names its new audience |

## Left out

- Filter text: CEL parsing and type checking are library code; the model starts from the checked expression, and an expression form the builder does not know is one constructor that it refuses.
- Error messages: failing renderings and builds are one outcome, without their wording.
- RenderMeaning.RenderPreservesMeaning: holds on rows where JSON flag comparisons are faithful, because elsewhere it is false; RenderMeaning.FlagComparisonExact gives the exact condition.
- CelProofs.BuildPreservesMeaning: holds for expressions whose constants meet the exact conditions of CelNumbers, whose folded results stay within int64, and where `all` sees a non-empty list; elsewhere it is false.
- CelNumbers.FoldingExactIff: takes CEL's arithmetic on doubles as real arithmetic, without its rounding; what Go does with a double outside the int64 range is implementation-defined and not modelled, nor is the rounding of a duration's floating-point seconds.
- Collations, case folding, regular expressions and date parts are functions of the abstract database.
- JSON flags of a memo are booleans in the stored message, so a number or a text under such a key is not modelled.
- Statements.PlaceholdersExact: what the drivers do with surplus or missing arguments is not part of the repository and is taken as stated above.
- NULL columns beyond Kleene logic, and CEL's two-valued reading of them under negation.
- StorageSafety.RunKeepsRegistry: takes the digest as injective and as different from the built-in identities; a truncated SHA-256 is neither in principle.
- Storages are values in a list of the setting object: two settings that share one storage object are not modelled, and the request and the stored setting are distinct objects.
- DriverCache.ServedIsFresh: stops at 2^64 resets, where the counter wraps; DriverCache.StaleCachedIffWrapped shows that it fails there.
- Construction of drivers, S3 clients, and the callers that reset the cache.
- TagTables.MatchFullyQualifiedEmoji: asks for a table of encoded entries of at most 35 bytes, as the generated table is; the tables themselves are parameters.
- EmailFinder.AddressReadBack: the decoder of character references is a parameter; each reference stands for at most one byte, for letters and digits only, or for bytes no email can begin or end with, as the entities of HTML and the UTF-8 bytes of numbered characters do.
- The single-address matcher in gfm_email.go lines 84-107, and the finder of mentions; the split that follows it is InlineSplit.ReplaceInlineMatches.
- Goldmark's parser and renderer, text segments that force a final newline, and the merging of adjacent text nodes before the split.
- TagRename.RenameRanges: takes the sorted ranges of the tag nodes as given, since the syntax tree is not part of this model.
- TtlCache.Cache.Lookup: entries of a foreign type in the map cannot occur and are not modelled; neither are size estimates and eviction callbacks.
- Concurrent use of the TTL cache, where loading and storing is not atomic and the counter is not exact.
- Cron.Next: the calendar of the time zone is a parameter, and so is the date four years later.
- AuthGuard.AuthStore.Apply: waiting between attempts, and a commit whose outcome is unknown.
- The uid check of a memo update and the lookup of the actor's own status precede the policy and only refuse more.
- Read access to memos, deletion of memos and spaces, and writes by trusted internal callers, which carry no policy.
- SMTP, HTTP, OAuth, JWT, webhooks, migrations and the web client: input, output and plumbing.

# Larust verification

A Dafny model of the parts of Larust whose behaviour is hardest to see from reading
one function at a time, with proofs about every input and every run:

- **Blade layouts** (`Blade*.dfy`): `@extends` chains are flattened into one node tree by
  collecting pushes and globals over the chain and then running three substitution passes.
- **SQL cache** (`CacheStore.dfy`, `CacheConcurrency.dfy`): entries with a time to live, a
  rate-limited sweep behind a compare-and-swap, lazy eviction, and `remember`.
- **Releases** (`SlotNames.dfy`, `ReleaseStore.dfy`, `ReleaseRuns.dfy`, `ReleaseNumbers.dfy`): numbered
  slots, the current-release file, retention, boot with fallback, the rebuild sentinel, and when a
  number is used again.
- **`xr dev` supervisor** (`Supervisor.dfy`): the state behind the mutex, a rebuild, and Ctrl+C.
- **Text rewriters** (`CargoFeature.dfy`, `CargoWellFormed.dfy`, `PackageVersion.dfy`, `ReleaseNotes.dfy`,
  over `Text.dfy`, `Lines.dfy`, `TomlShape.dfy` and `Decimals.dfy`).
- **Subscription mirror** (`Subscriptions.dfy`): the tables that Stripe's webhooks fill.

Code that updates state in the original is a class or a method with loops here
(`Resolution`, `SqlStore`, `ReleaseDirectory`, `DevState`, `Cashier`). Each such method is
proved to compute a specification function of its inputs and old state, and the theorems
are about those functions. Clock readings, file-system faults, build outcomes, listing
orders and failing statements are inputs. Where a theorem needs one of these operations to
succeed, as `EveryRunIsSafe` needs the writes of the current-release file, "Left out" says so.

`dafny verify dfyconfig.toml` checks the project.

## How to read the main results

**Resolution preserves meaning.** `BladeRendering` defines a late-bound renderer over an
arbitrary machine: conditions may change the state, loops bind and close scopes, and a
placeholder is looked up when it is reached. Rendering what `resolve` returns, with nothing
bound, equals rendering the untouched base layout with the chain's sections, stacks and
globals bound. The proof goes pass by pass (each moves one binding from the environment
into the tree), and a separate law shows that the recursion over the levels is one
simultaneous substitution. What the passes leave unresolved is stated exactly.

**The cache is a map with expiry.** The reference never deletes an expired entry. Over any
history whose clock does not run backwards, and under any faults, the driver gives the
same answers. For interleaved callers, `CacheConcurrency` splits every operation at its
atomic steps and proves soundness of each answer and the spacing of the sweeps.

**Release and supervisor safety are invariants of whole runs**, not of one call: each is
proved for every step and then for every sequence of steps.

## Where the code does less than its comments say

Each of these comes with its exact condition; where that is no example itself, a lemma exhibits one.

- *A slot number can be used again* (`release_slots.rs:15-20` says never). A boot that removes
  the newest release frees its number and the next deploy takes it. Exactly: the next number goes
  back if and only if a fallback boot removes its bad target and that was the only file of the newest
  generation (`ReleaseNumbers.ANumberIsFreedExactly`); over a run the numbers of the deploys rise if
  and only if no boot does so before a later deploy (`NumbersRiseExactly`). A removed `dev` slot works
  the same way: `ADevNumberIsReused`, and exactly when, `SessionGoesBackExactly`. What always holds is
  that no publish overwrites a slot that still exists and was handed out before (`EveryRunIsSafe`).
- *A second incident under a reused number triggers no rebuild*, since the sentinel takes it for the
  first: `ReleaseRuns.AReusedNumberSilencesTheRebuild`. Exactly: a fallback rebuilds if and only if its
  path is not the one recorded, and only a rebuild changes the record (`RebuildsExactly`).
- *A time to live can be dead on arrival.* The fraction of a second is dropped, so half a second is
  none (`CacheStore.HalfASecondIsDeadOnArrival`; the Redis driver guards this case), and the cast of
  `Duration::MAX` to `i64` wraps to -1 (`LongestTtlIsDeadOnArrival`). Exactly: no later `get` ever finds
  what was stored if and only if there is no whole second or the sum of the seconds does not fit
  (`DeadOnArrivalExactly`). The expiry is `now + ttl` to the nanosecond if and only if the sum fits and
  there is no fraction (`TtlIsHonouredExactly`). In a debug build the sum overflows with a panic.
- *A fresh cache entry can be evicted.* The lazy DELETE is by key alone:
  `CacheConcurrency.AFreshEntryCanBeLost`. Exactly, over every interleaving: an unexpired entry is
  missing if and only if a lazy DELETE came after a write to its key that followed that caller's
  SELECT, and the key has not been written since (`EntriesAreLostExactly`).
- *Version edits drop carriage returns.* `str::lines` takes the `\r` of every `\r\n` with it and joining
  puts back `\n` only, so a manifest with Windows line endings loses them all:
  `Lines.AWindowsEndingIsLost`. Exactly: the edit changes the quoted value and no other character if
  and only if no `\r\n` occurs in the text (`PackageVersion.SetReplacesTheValueExactly`, and
  `DependencyRewriteKeepsEndingsExactly` for the dependency lines). Of a line that ends in `\r\r\n` even
  the content changes: `Lines.ADoubledCarriageReturnIsLost`, exactly when, `RejoinKeepsLinesExactly`.
- *The last item of the release notes can vanish.* A last subject such as `feat:` has an empty
  item, and trimming the text leaves a bare dash: `ReleaseNotes.ALoneTypeIsLost`. The notes list every
  item if and only if the last one is not empty (`NotesReadBackExactly`).
- *A feature array can become ill-formed.* The edit always puts a comma first, so an array that is
  empty or ends in a comma, both of which TOML allows, gets a comma with nothing before it, also if a
  comment hides that last comma: `CargoWellFormed.AnEmptyArrayGetsAComma`, `ACommentHidesTheLastComma`.
  Exactly: with comments and strings left aside, its separators are in order afterwards if and only if
  they were and the array neither was empty nor ended in a comma (`CommasStayExactly`).
- *So can an inline table without a feature array*, since the edit adds `default-features` and
  `features` after a comma: `CargoWellFormed.TwoTablesBreak`. Exactly: the table has each key once and
  no stray comma afterwards if and only if it was so before, was not empty, and had neither key
  (`TableStaysExactly`).
- *A feature behind a comment is listed twice*, since the comment is read as part of its name:
  `CargoWellFormed.ACommentHidesAName`. Exactly: an entry that means a feature is recognised if and
  only if there is no comment in it (`EntryIsSeenExactly`).
- *Numbers wrap at the last 64-bit value* in a release build, for slots and for version fields
  (`SlotNames.TheLastNumberWraps`, `PackageVersion.TheLastPatchGoesBack`), and only there
  (`NextGenerationIsFreshExactly`, `BumpIsHigherExactly`).
- *Slot 0 can outlive the retention rule* because of the early return:
  `ReleaseStore.SlotZeroOutlivesTheRule`. Exactly: a slot survives against the rule if and only if it is
  numbered 0 and the current number is 3 (`RetentionIsExact`).
- *Without a current-release file, boot gives up* even if runnable releases exist; its message
  says that no valid release exists (`ReleaseStore.BootSucceedsExactly`).

## Model

| member | source | states |
|---|---|---|
| BladeTheorems.ResolutionPreservesMeaning | crates/larust-view/.rs:11-77 | for every chain that ends and every machine and start state, rendering the resolved template with nothing bound equals late-bound rendering of the base layout |
| BladeTheorems.FlattenPreservesMeaning | crates/larust-view/.rs:67-76 | level-by-level yield substitution is a yield answered by the base's child first and rendered under the levels below |
| BladeRendering.RewritePreservesMeaning | crates/larust-view/.rs:235-347 | each of the three passes moves exactly its own binding from the environment into the tree, loops and branches included |
| BladeSubstitution.YieldsAreARewrite | crates/larust-view/.rs:315-347 | `substitute_yields` replaces reachable leaves and nothing else |
| BladeSubstitution.StacksAreARewrite | crates/larust-view/.rs:281-313 | `substitute_stacks` likewise |
| BladeSubstitution.GlobalsAreARewrite | crates/larust-view/.rs:235-273 | `substitute_globals` likewise |
| BladeSubstitution.YieldsCompose | crates/larust-view/.rs:315-347 | two yield substitutions in a row are one, by the composed section map |
| BladeSubstitution.ComposeAssociates | crates/larust-view/.rs:67-76 | composition of section maps is associative |
| BladeTheorems.ChainIsOneSubstitution | crates/larust-view/.rs:67-76 | an n-level chain is one simultaneous substitution into the base, whose names are those of the base's direct child |
| BladeSubstitution.RewriteReaches | crates/larust-view/.rs:235-347 | the leaves of a pass's output are exactly the leaves of the replacements of the input's leaves |
| BladeChain.ParentIsTheFirst | crates/larust-view/.rs:49-56 | a template extends what its first top-level `@extends` names, wherever that stands, and nothing if it has none |
| BladeChain.CompleteChainsAreLayoutChains | crates/larust-view/.rs:49-76 | the visited levels are exactly those that the first `@extends` of each load one after the other, up to one that has none |
| BladeChain.ResolveSucceedsExactly | crates/larust-view/.rs:22-77 | resolution succeeds if and only if following first `@extends` reaches a base through loadable levels without a push or globals below a loop |
| BladeChain.ResolveFailsExactly | crates/larust-view/.rs:22-77 | which error is returned, and for which chain: rejected level, revisited name or failed load, in the order they are checked |
| BladeChain.FailureIsAtTheFirstExtends | crates/larust-view/.rs:38-74 | that failure said with the first `@extends` of the last level: a cycle if a level below extends the same name, else a failed load |
| BladeChain.FiniteChainsDoNotRevisit | crates/larust-view/.rs:58-65 | a chain that ends never takes the same parent twice, so the cycle check turns away only endless chains |
| BladeCollection.RejectedExactly | crates/larust-view/.rs:93-228 | a level is refused if and only if some path into it leads through a loop to the directive |
| BladeCollection.LoopsPushNothing | crates/larust-view/.rs:111-121 | in an accepted level the descent into loop bodies collects no push |
| BladeCollection.LoopsAssignNothing | crates/larust-view/.rs:191-200 | nor any assignment |
| BladeCollection.RegisterIsExact | crates/larust-view/.rs:99-101 | a stack holds what it held, then exactly the bodies pushed to its name, in order |
| BladeTheorems.StackContentsAreExact | crates/larust-view/.rs:29-38 | over a chain a stack is the concatenation of the levels' push bodies, child-most level first, in pre-order within a level |
| BladeTheorems.PlacedStackIsExact | crates/larust-view/.rs:281-286 | a placed stack shows the pushed bodies and nothing else |
| BladeTheorems.PlacedYieldIsExact | crates/larust-view/.rs:315-320 | a yield shows the last top-level section of its name in the level below, or nothing |
| BladeTheorems.PlacedGlobalIsExact | crates/larust-view/.rs:235-246 | a global shows the assigned value, else its fallback, both escaped, else nothing |
| BladeTheorems.GlobalsPrecedence | crates/larust-view/.rs:160-208 | a global has the last assignment of the child-most level that assigns it, and none if no level does |
| BladeTheorems.TopSectionsAreTheLast | crates/larust-view/.rs:67-72 | of several top-level sections of one name the last one counts |
| BladeTheorems.TopSectionsAreSections | crates/larust-view/.rs:67-72 | and no name without a top-level section is bound |
| BladeTheorems.YieldPassLeaves | crates/larust-view/.rs:315-347 | the yields and stacks after a yield pass are those of the sections actually spliced in, and the stacks that were there |
| BladeTheorems.StackPassLeaves | crates/larust-view/.rs:281-313 | the same for the stack pass |
| BladeTheorems.GlobalPassLeaves | crates/larust-view/.rs:235-273 | no `@global` is left and no yield or stack is added or removed |
| BladeTheorems.NoGlobalSurvives | crates/larust-view/.rs:11-20 | the output of any successful resolution holds no `@global` at a reachable position |
| BladeTheorems.LeftoversExactly | crates/larust-view/.rs:11-77 | with an `@extends`, exactly when the output holds no yield and no stack |
| BladeTheorems.NothingLeft | crates/larust-view/.rs:11-77 | sections of the page without yields and pushes without placeholders leave nothing unresolved |
| BladeResolver.Resolve | crates/larust-view/.rs:11-20 | the imperative resolver returns what the specification says, and loads no name twice |
| BladeResolver.Resolution.ResolveInner | crates/larust-view/.rs:22-77 | result, error, accumulated pushes and globals of one level and all above it; terminates on the names not yet seen; the load log holds each seen name once |
| BladeResolver.Resolution.CollectPushes | crates/larust-view/.rs:93-127 | fails exactly on a rejected level, otherwise appends every push in pre-order |
| BladeResolver.Resolution.CollectGlobals | crates/larust-view/.rs:160-170 | merges under what is already collected, for any order of walking the hash map |
| BladeResolver.Resolution.CollectGlobalsInto | crates/larust-view/.rs:172-208 | later assignments overwrite earlier ones, in traversal order |
| BladeResolver.CollectSections | crates/larust-view/.rs:67-72 | gathers the top-level sections |
| CacheStore.CacheRefinesMapWithExpiry | crates/larust-cache/src/sql_store.rs:132-251 | over every history with a clock that does not run backwards, and under all faults, all replies are those of a map with expiry that never deletes |
| CacheStore.StepAgrees | crates/larust-cache/src/sql_store.rs:132-251 | one operation keeps the rows equal to the reference's less some expired ones, and replies alike |
| CacheStore.SweepIsExact | crates/larust-cache/src/sql_store.rs:132-149 | within 300 seconds of the last sweep nothing changes; otherwise the clock is set and, unless the DELETE fails, exactly the rows that expire later are left |
| CacheStore.PutIsExact | crates/larust-cache/src/sql_store.rs:154-186 | a ready `put` sweeps so, then writes its one row or nothing, and the reply says which |
| CacheStore.GetIsExact | crates/larust-cache/src/sql_store.rs:198-232 | a ready `get` sweeps so, then answers from the row found, deletes it if it has expired, and fails on a value that does not decode |
| CacheStore.ForgetIsExact | crates/larust-cache/src/sql_store.rs:236-251 | the key and nothing else is removed, the sweep clock stays |
| CacheStore.RememberIsExact | crates/larust-cache/src/store.rs:92-112 | a miss fetches, stores and answers with what was fetched; anything else is passed on |
| CacheStore.DueSweepsRemoveWhatExpired | crates/larust-cache/src/sql_store.rs:129-149 | an expired row under any key is gone after the next due `get` |
| CacheStore.SqlStore.SweepExpiredIfDue | crates/larust-cache/src/sql_store.rs:132-149 | not before the interval is over; the clock is set even if the DELETE fails |
| CacheStore.SqlStore.Put | crates/larust-cache/src/sql_store.rs:154-186 | new rows, sweep clock and reply, for every fault |
| CacheStore.SqlStore.Get | crates/larust-cache/src/sql_store.rs:198-232 | likewise, with lazy eviction and undecodable values |
| CacheStore.SqlStore.Forget | crates/larust-cache/src/sql_store.rs:236-251 | removes the key, without a sweep |
| CacheStore.SqlStore.Remember | crates/larust-cache/src/store.rs:92-112 | a failed read fails the call, a failed write does not |
| CacheStore.TtlIsHonouredExactly | crates/larust-cache/src/sql_store.rs:161 | the stored expiry is `now + ttl` in whole seconds if and only if that sum fits an i64, and to the nanosecond if and only if there is no fraction either |
| CacheStore.ExpiredWhenWrittenExactly | crates/larust-cache/src/sql_store.rs:161 | the entry is stored already expired if and only if there is no whole second or the sum does not fit |
| CacheStore.DeadOnArrivalExactly | crates/larust-cache/src/sql_store.rs:154-232 | no undisturbed `get` after the `put` ever finds the value, under that same condition and no other |
| CacheStore.HalfASecondIsDeadOnArrival | crates/larust-cache/src/sql_store.rs:161-227 | half a second stores an entry that is never found |
| CacheStore.LongestTtlIsDeadOnArrival | crates/larust-cache/src/sql_store.rs:161-227 | the longest duration stores an entry that expired a second ago and is never found |
| CacheStore.PutThenGet | crates/larust-cache/src/sql_store.rs:154-232 | a stored value is read back exactly while its expiry is ahead |
| CacheStore.RememberIsStable | crates/larust-cache/src/store.rs:92-112 | a second `remember` within the lifetime answers with the first one's value |
| CacheConcurrency.InterleavingsAreSafe | crates/larust-cache/src/sql_store.rs:132-251 | in every interleaving and for all clocks: recorded sweeps lie 300 seconds apart, no two callers hold one sweep, and every answer was the value last written when read and unexpired when checked |
| CacheConcurrency.NoAba | crates/larust-cache/src/sql_store.rs:134-139 | a compare-and-swap that succeeds had no sweep between load and swap |
| CacheConcurrency.SwapIsWonExactly | crates/larust-cache/src/sql_store.rs:134-141 | the swap is won exactly when 300 seconds have passed since the loaded value and it is still there |
| CacheConcurrency.SweepIsItsSteps | crates/larust-cache/src/sql_store.rs:132-149 | undisturbed, a caller's steps are possible and sweep as the driver does |
| CacheConcurrency.GetIsItsSteps | crates/larust-cache/src/sql_store.rs:203-227 | undisturbed, a live row is answered once as read, an expired one evicted, and nothing else answered |
| CacheConcurrency.WritesAreSteps | crates/larust-cache/src/sql_store.rs:177-248 | a write changes its row, is possible at any time and is logged |
| CacheConcurrency.StepKeepsInv | crates/larust-cache/src/sql_store.rs:132-251 | every atomic step of every caller keeps the invariant |
| CacheConcurrency.OnlyEvictionLoses | crates/larust-cache/src/sql_store.rs:132-251 | key by key, from any reachable state: after a step an unexpired entry is missing if and only if the step did not write its key and it was missing before or the step is a lazy DELETE of a key that is live again |
| CacheConcurrency.LosingTakesAWrite | crates/larust-cache/src/sql_store.rs:203-227 | the key a lazy DELETE removes is live if and only if an unexpired value was stored after that caller's SELECT and nothing was written to the key since |
| CacheConcurrency.EntriesAreLostExactly | crates/larust-cache/src/sql_store.rs:132-251 | over every interleaving an unexpired entry is missing if and only if some lazy DELETE lost that race and the key was not written afterwards |
| CacheConcurrency.NothingIsLostWithoutARace | crates/larust-cache/src/sql_store.rs:132-251 | an interleaving without such a race keeps every unexpired entry |
| CacheConcurrency.AFreshEntryCanBeLost | crates/larust-cache/src/sql_store.rs:203-227 | an interleaving in which it happens |
| SlotNames.ParseSlotExactly | crates/larust-cli/src/release_slots.rs:76-81 | a name is a slot exactly if it is prefix, dash, a number that parses, and nothing or a dot and anything |
| SlotNames.SlotNameIsCanonical | crates/larust-cli/src/release_slots.rs:39-46 | a slot is named by its number without leading zeros, and the source's extension |
| Decimals.ParseU64Exactly | crates/larust-cli/src/release_slots.rs:80 | what parses as a 64-bit number, and as which |
| SlotNames.ParseSlotName | crates/larust-cli/src/release_slots.rs:39-80 | a slot's name parses back to its generation for any extension |
| SlotNames.PrefixesAreSeparate | crates/larust-cli/src/release_slots.rs:78-80 | no file name is a slot under both `dev` and `release` |
| SlotNames.ExistingGenerationsIsExact | crates/larust-cli/src/release_slots.rs:67-86 | the listing is descending and holds exactly the slots on disk |
| SlotNames.NextGenerationIsFreshExactly | crates/larust-cli/src/release_slots.rs:54-58 | the next number exceeds every slot on disk if and only if the last 64-bit number is unused |
| SlotNames.TheLastNumberWraps | crates/larust-cli/src/release_slots.rs:54-58 | after the last 64-bit number comes zero |
| SlotNames.SessionStartsAtTheMaximum | crates/larust-cli/src/dev.rs:574-576 | a session starts at the highest `dev` slot on disk if and only if the last 64-bit number is unused, and never at a number without a slot |
| ReleaseStore.PublishIsExact | crates/larust-cli/src/release_slots.rs:93-149 | where a publish stops it has copied, or made executable, or moved the pointer, in that order; every other file stays |
| ReleaseStore.PruneIsExact | crates/larust-cli/src/release_slots.rs:156-217 | for any listing and any failing removals, exactly which files go; none for low numbers or an unreadable pointer |
| ReleaseStore.BootIsExact | crates/larust-cli/src/boot_release.rs:82-135 | a fallback removes its bad target, points at what it runs and records it; any other boot changes nothing |
| ReleaseStore.RunnableExactly | crates/larust-cli/src/boot_release.rs:219-243 | a release is refused exactly if it is missing, no file, not executable, unreadable or no ELF binary |
| ReleaseStore.ReleaseDirectory.PublishSlot | crates/larust-cli/src/release_slots.rs:93-114 | files and current-release file after a publish that stops at any of its steps |
| ReleaseStore.ReleaseDirectory.PruneSlots | crates/larust-cli/src/release_slots.rs:156-217 | the walk deletes exactly the listed, too old, removable slots other than the target |
| ReleaseStore.ReleaseDirectory.BootRelease | crates/larust-cli/src/boot_release.rs:82-135 | store and outcome of a boot, for every failing file operation |
| ReleaseStore.ReleaseDirectory.MaybeTriggerRebuild | crates/larust-cli/src/boot_release.rs:253-282 | a rebuild exactly when the recorded path differs, recorded or not; a failed write leaves any content |
| ReleaseStore.PruneKeepsTarget | crates/larust-cli/src/release_slots.rs:174-216 | no prune deletes or changes what the current-release file points at |
| ReleaseStore.RetentionIsExact | crates/larust-cli/src/release_slots.rs:156-217 | survivors of a complete prune are exactly the generations from `g - 2`, the target, and slot 0 when `g` is 3; all other files stay |
| ReleaseStore.SlotZeroOutlivesTheRule | crates/larust-cli/src/release_slots.rs:157-160 | a slot numbered 0 is kept against the rule |
| ReleaseStore.PruneConverges | crates/larust-cli/src/release_slots.rs:156-217 | a complete prune after any partial earlier one is that prune alone; pruning is idempotent |
| ReleaseStore.FirstUsableIsExact | crates/larust-cli/src/boot_release.rs:158-160 | the search finds a usable candidate of the highest generation, or there is none |
| ReleaseStore.FallbackIsTheBest | crates/larust-cli/src/boot_release.rs:147-169 | a fallback goes to a runnable release slot and none with a higher generation is runnable |
| ReleaseStore.BootSucceedsExactly | crates/larust-cli/src/boot_release.rs:82-169 | a boot runs something if and only if the file names a path and that path or some release slot is runnable; a runnable target is run untouched |
| ReleaseStore.SpareReleasesSaveTheBoot | crates/larust-cli/src/boot_release.rs:82-169 | fewer corrupt releases than releases: with three kept any two may be bad |
| ReleaseStore.FallbackStabilises | crates/larust-cli/src/boot_release.rs:89-117 | after a fallback the next boot runs the same release and changes nothing |
| ReleaseStore.FallbackPointerExactly | crates/larust-cli/src/boot_release.rs:101-114 | exactly when a fallback leaves the current-release file on an existing file, write failures included |
| ReleaseRuns.EveryRunIsSafe | crates/larust-cli/src/release_slots.rs:93-217 | over all runs of sessions, publishes, prunes, deploys, boots and corruption: no publish overwrites a slot handed out earlier that still exists, and the current-release file never dangles |
| ReleaseRuns.StepKeepsInv | crates/larust-cli/src/dev.rs:806-814 | each kind of step keeps the run invariant |
| ReleaseRuns.PublishIsFresh | crates/larust-cli/src/dev.rs:806-814 | both counters hand out numbers whose slots are not such files |
| ReleaseRuns.DeployIsExact | crates/larust-cli/src/deploy.rs:184-187 | a successful deploy takes the next number; afterwards exactly the new slot, the releases from `g - 2` and all other files exist, unchanged |
| ReleaseRuns.DevPublishIsExact | crates/larust-cli/src/dev.rs:806-814 | the same for a session, with the number after its counter, which moves |
| ReleaseRuns.AFailedPublishPrunesNothing | crates/larust-cli/src/dev.rs:806-826 | a failed publish leaves the counter and every file but its own |
| ReleaseRuns.DevPruneIsExact | crates/larust-cli/src/dev.rs:378-379 | an idle session's prune follows the same rule and keeps the target |
| ReleaseRuns.OtherStepsAreEnabled | crates/larust-cli/src/boot_release.rs:82-135 | sessions, boots and corruption can come in every world, and do what their operations say |
| ReleaseRuns.PublishSetsThePointer | crates/larust-cli/src/deploy.rs:184-187 | publish then prune leaves the current-release file on the new slot, which exists |
| ReleaseRuns.DeployThenBoot | crates/larust-cli/src/deploy.rs:184-187 | a published program is what the next boot runs, byte for byte, without a fallback |
| ReleaseRuns.RebuildsExactly | crates/larust-cli/src/boot_release.rs:253-282 | over every run the rebuilds are the fallbacks whose bad path is not the recorded one, failed sentinel writes included |
| ReleaseRuns.RebuildsAreTheChanges | crates/larust-cli/src/boot_release.rs:253-282 | in particular, where the sentinel writes succeed: the fallbacks whose bad path differs from the previous one |
| ReleaseRuns.AReusedNumberSilencesTheRebuild | crates/larust-cli/src/boot_release.rs:253-282 | two incidents of one reused number trigger one rebuild |
| ReleaseNumbers.ANumberIsFreedExactly | crates/larust-cli/src/boot_release.rs:89-117 | a step lowers the next release number if and only if it is a fallback boot that removes the only file of the newest generation |
| ReleaseNumbers.StepMovesNewest | crates/larust-cli/src/release_slots.rs:54-114 | a deploy that leaves a file raises the newest number by one and uses it, such a boot lowers it, nothing else moves it |
| ReleaseNumbers.NumbersRiseExactly | crates/larust-cli/src/release_slots.rs:15-20 | over every run the numbers of the deploys strictly increase from the newest on disk if and only if no boot frees the newest before a later deploy |
| ReleaseNumbers.StepMovesCounter | crates/larust-cli/src/dev.rs:806-814 | which steps put the session counter's slot on disk and which take it away |
| ReleaseNumbers.SessionGoesBackExactly | crates/larust-cli/src/dev.rs:560-576 | a later session starts below the counter of the one before if and only if a boot removed the only `dev` slot from the counter on and nothing was published in between |
| ReleaseNumbers.ADevNumberIsReused | crates/larust-cli/src/dev.rs:574-576 | a run in which it does |
| Supervisor.SupervisorIsSafe | crates/larust-cli/src/dev.rs:797-935 | in every interleaving: no server started if and only if the placeholder's socket is held, one stop signal at most and exactly one once a server started, the missing-listener branch never taken, stages only move forward |
| Supervisor.CtrlCFindsTheServer | crates/larust-cli/src/dev.rs:1289-1313 | Ctrl+C kills the direct child, or sends STOP after a handoff, or sends nothing before the first server |
| Supervisor.RebuildSendsExactly | crates/larust-cli/src/dev.rs:797-1010 | the commands of a rebuild, case by case of what was serving and how it went, and the whole new state |
| Supervisor.StepSendsExactly | crates/larust-cli/src/dev.rs:797-1010 | the commands of each step in every interleaving |
| Supervisor.CommandsAreCounted | crates/larust-cli/src/dev.rs:797-1010 | over every run: one RESTART for each build published while a server ran, one reap at the first handoff, one status for each rebuild begun and for each that failed, and no others |
| Supervisor.CtrlCIsAlwaysPossible | crates/larust-cli/src/dev.rs:1289-1313 | Ctrl+C can come whenever the mutex is free and its handler ends the process |
| Supervisor.RebuildIsItsSteps | crates/larust-cli/src/dev.rs:797-848 | the interleaved steps of an undisturbed rebuild compose to the method's effect |
| Supervisor.TheMutexIsNeeded | crates/larust-cli/src/dev.rs:786-803 | inside a rebuild the state can say that nothing runs while a child does |
| Supervisor.GenerationCountsPublishes | crates/larust-cli/src/dev.rs:808-813 | the counter moves by one with each successful publish and with nothing else |
| Supervisor.DevState.RebuildAndRestart | crates/larust-cli/src/dev.rs:797-848 | the whole new state for every outcome of build, publish, start and handoff |
| Supervisor.DevState.DoAdvance | crates/larust-cli/src/dev.rs:869-935 | the three server states, the listener taken and put back |
| Supervisor.DevState.DoRequestHandoff | crates/larust-cli/src/dev.rs:987-1010 | handed off whatever the answer; a failed status is sent for one answer only |
| Supervisor.DevState.DoNotifyBuildStatus | crates/larust-cli/src/dev.rs:966-977 | silent before the first server |
| Supervisor.DevState.OnCtrlC | crates/larust-cli/src/dev.rs:1294-1306 | state and command of the handler |
| CargoFeature.NoLineNoEdit | crates/larust-cli/src/add.rs:172 | a manifest without the dependency line is refused |
| CargoFeature.ArrayEditIsExact | crates/larust-cli/src/add.rs:202-220 | with an array, the whole new text: the quoted feature before the closing bracket, nothing if it is listed, refused if the array is not closed |
| CargoFeature.TableEditIsExact | crates/larust-cli/src/add.rs:179-199 | without one, the whole new text: the two keys before the last brace of the line |
| CargoFeature.NoBraceNoEdit | crates/larust-cli/src/add.rs:190 | a line without a brace is refused |
| CargoFeature.AddFeatureIsIdempotent | crates/larust-cli/src/add.rs:171-221 | a successful edit lists the old names in order and then the feature, in both shapes of the line; a second one changes nothing and reports it |
| CargoFeature.AddFeatureInserts | crates/larust-cli/src/add.rs:171-221 | the text changes by one contiguous insertion, empty exactly when already enabled |
| CargoFeature.AddingToAnArray | crates/larust-cli/src/add.rs:202-220 | inserting before the bracket keeps the place and extends the content |
| CargoFeature.AddingAnArray | crates/larust-cli/src/add.rs:179-199 | the inserted array is the one found afterwards |
| CargoWellFormed.CommasStayExactly | crates/larust-cli/src/add.rs:202-220 | after adding, the array's separators are in order, comments and strings left aside, if and only if they were and the array neither was empty nor ended in a comma |
| CargoWellFormed.NewArrayCommasFit | crates/larust-cli/src/add.rs:191-192 | the array the edit writes itself is always well-formed in that sense |
| CargoWellFormed.AnEmptyArrayGetsAComma | crates/larust-cli/src/add.rs:206-220 | an empty array, which was in order, becomes one that starts with a comma, which is not |
| CargoWellFormed.ACommentHidesTheLastComma | crates/larust-cli/src/add.rs:206-220 | an array whose last comma only a comment follows gets a second comma |
| CargoWellFormed.EntryIsSeenExactly | crates/larust-cli/src/add.rs:206-209 | an entry that means a feature once its comments are taken out is recognised if and only if it has none |
| CargoWellFormed.ACommentHidesAName | crates/larust-cli/src/add.rs:206-220 | a feature on the line after a comment is added again |
| CargoWellFormed.TableStaysExactly | crates/larust-cli/src/add.rs:179-199 | without an array, the edited inline table has each key once and no stray comma if and only if it was so before, was not empty and had neither new key |
| CargoWellFormed.TwoTablesBreak | crates/larust-cli/src/add.rs:190-199 | an empty table and one that already turns the defaults off become ill-formed |
| Text.WhitespaceIsExact | crates/larust-cli/src/release.rs:161 | which characters `trim` takes off |
| PackageVersion.PackageVersionLineIndex | crates/larust-cli/src/release.rs:158-174 | the loop with its section flag finds the specified index |
| PackageVersion.VersionIndexIsFirst | crates/larust-cli/src/release.rs:158-174 | that is the first `version` line whose nearest header opens the package or workspace package section |
| PackageVersion.VersionLineIsExact | crates/larust-cli/src/release.rs:158-190 | that in the file's own words: the first `version =` line under `[package]` or `[workspace.package]`; without one there is nothing to set |
| PackageVersion.ReadIsExact | crates/larust-cli/src/release.rs:176-187 | a version is read exactly if that line has a quoted value, and is that value |
| PackageVersion.ReadAfterSet | crates/larust-cli/src/release.rs:176-209 | after setting, the new version is read, and the content of every other line is kept if and only if none has a carriage return of its own at its end |
| PackageVersion.SetReplacesTheValueExactly | crates/larust-cli/src/release.rs:189-209 | the text changes in the quoted value of the version line and nowhere else if and only if it has no carriage return before a newline |
| PackageVersion.DependencyRewriteIsExact | crates/larust-cli/src/release.rs:278-298 | the lines of the result are the rewritten lines under the same condition on line contents |
| PackageVersion.DependencyRewriteKeepsEndingsExactly | crates/larust-cli/src/release.rs:278-298 | the text is the rewritten lines with every line ending kept if and only if it has no carriage return before a newline |
| PackageVersion.DependencyLineIsExact | crates/larust-cli/src/release.rs:286-287 | a line changes if and only if it is a `larust-` line that holds the requirement, and then only its first occurrence |
| PackageVersion.BumpIsHigherExactly | crates/larust-cli/src/release.rs:304-317 | a bump is again a plain triple with lower fields reset, of higher precedence if and only if the field is not the last 64-bit number |
| PackageVersion.ParseTripleExactly | crates/larust-cli/src/release.rs:304-311 | what is accepted: three 64-bit numbers and two dots |
| PackageVersion.BumpIsExact | crates/larust-cli/src/release.rs:304-317 | the text a bump prints, and that it fails on nothing else |
| PackageVersion.TheLastPatchGoesBack | crates/larust-cli/src/release.rs:304-317 | a version that a patch bump takes back to zero |
| PackageVersion.ParseFormat | crates/larust-cli/src/release.rs:304-317 | printing and parsing a triple is the identity |
| Lines.RejoinKeepsLinesExactly | crates/larust-cli/src/release.rs:193-208 | splitting, rewriting and joining keeps the content of all lines if and only if no line has a carriage return of its own at its end |
| Lines.RewriteKeepsEndingsExactly | crates/larust-cli/src/release.rs:193-208 | joining rewritten lines gives the text with those lines and all its endings if and only if it has no carriage return before a newline |
| Lines.RejoinIsIdentityExactly | crates/larust-cli/src/release.rs:193-208 | splitting and joining is the identity exactly then |
| Lines.AWindowsEndingIsLost | crates/larust-cli/src/release.rs:193-208 | a text with a Windows line ending that loses it |
| Lines.ADoubledCarriageReturnIsLost | crates/larust-cli/src/release.rs:193-208 | an input that loses one |
| ReleaseNotes.ReleaseNotes | crates/larust-cli/src/release.rs:326-377 | grouping and printing loops compute the specified text |
| ReleaseNotes.BucketIsByFirstWord | crates/larust-cli/src/release.rs:340-346 | a subject's bucket is decided by the word before its first colon |
| ReleaseNotes.KnownTypesDecide | crates/larust-cli/src/release.rs:327-351 | that for the eight known types, and every other subject is under Other |
| ReleaseNotes.HeadingsAreExact | crates/larust-cli/src/release.rs:327-336 | the nine headings in their order |
| ReleaseNotes.HeadingIsExact | crates/larust-cli/src/release.rs:327-351 | which of them a subject goes under, by the word before its colon |
| ReleaseNotes.ItemIsExact | crates/larust-cli/src/release.rs:341-349 | what is printed there: the trimmed rest after the colon, or under Other the whole subject |
| ReleaseNotes.SubjectsAreTheLines | crates/larust-cli/src/release.rs:340 | the subjects are the trimmed non-blank lines of the log, in order |
| ReleaseNotes.CommitsAreConserved | crates/larust-cli/src/release.rs:337-351 | every subject is in exactly one bucket, once |
| ReleaseNotes.PrintedReadsBack | crates/larust-cli/src/release.rs:353-375 | the printed lines read back as the buckets under their headings, in order |
| ReleaseNotes.NotesReadBackExactly | crates/larust-cli/src/release.rs:326-377 | for every log the final text reads back as all items in log order if and only if the last item is not empty |
| ReleaseNotes.ALoneTypeIsLost | crates/larust-cli/src/release.rs:340-376 | a log whose only item is not listed |
| Subscriptions.SubscriptionEventsReachTheMirror | crates/larust-cashier-stripe/src/webhook.rs:67-79 | a created, updated or deleted subscription of a known customer updates its one row and is answered by its own event |
| Subscriptions.OtherEventsChangeNothing | crates/larust-cashier-stripe/src/webhook.rs:80-81 | a failed payment and every other kind change nothing and are reported as such |
| Subscriptions.ErrorsAreExact | crates/larust-cashier-stripe/src/webhook.rs:55-170 | each fault is answered with its own error, in the order in which the code meets them |
| Subscriptions.AcceptedIsExact | crates/larust-cashier-stripe/src/webhook.rs:67-170 | which deliveries the fold counts: those three kinds, without a fault, for a customer some user has |
| Subscriptions.CreateCustomerIsExact | crates/larust-cashier-stripe/src/customer.rs:29-56 | which customer a user gets and keeps, and that errors store nothing |
| Subscriptions.MirrorIsTheFold | crates/larust-cashier-stripe/src/webhook.rs:55-235 | after any run a row holds the last accepted delivery's fields and time, and the first one's user, row id and creation time |
| Subscriptions.RowsAreTheAccepted | crates/larust-cashier-stripe/src/webhook.rs:140-235 | a row exists exactly for the subscriptions with an accepted delivery |
| Subscriptions.LaterSubscriptionsAreNewer | crates/larust-cashier-stripe/src/subscription.rs:40-50 | row ids follow the order in which subscriptions were first mirrored |
| Subscriptions.ReplayChangesOnlyTheTime | crates/larust-cashier-stripe/src/webhook.rs:177-204 | delivering an event again changes only `updated_at` |
| Subscriptions.UnknownCustomersAreIgnored | crates/larust-cashier-stripe/src/webhook.rs:162-170 | unknown customers change nothing and are no error; known ones always leave a row |
| Subscriptions.FailedDeliveriesChangeNothing | crates/larust-cashier-stripe/src/webhook.rs:55-235 | a delivery answered with an error leaves all tables as they were |
| Subscriptions.CustomersAreForever | crates/larust-cashier-stripe/src/customer.rs:29-56 | a user's Stripe customer never changes along a run |
| Subscriptions.StepKeepsInv | crates/larust-cashier-stripe/src/webhook.rs:55-235 | customers and row ids stay unique |
| Subscriptions.Cashier.DoHandleWebhook | crates/larust-cashier-stripe/src/webhook.rs:55-83 | tables and result of a delivery, by event type: missing secret, wrong signature, body that is not JSON, failing statements |
| Subscriptions.Cashier.DoUpsert | crates/larust-cashier-stripe/src/webhook.rs:140-235 | missing fields, unknown customer, failing lookup or upsert, insert and overwrite |
| Subscriptions.Cashier.DoCreateCustomer | crates/larust-cashier-stripe/src/customer.rs:29-56 | existing customer, unreachable Stripe, missing id, failing statements, unique violation, insert |
| Subscriptions.Cashier.SubscriptionFor | crates/larust-cashier-stripe/src/subscription.rs:40-74 | the user's row with the highest id, or none if the user has no row |
| Subscriptions.Cashier.Subscribed | crates/larust-cashier-stripe/src/subscription.rs:81-86 | true if and only if that row is active or on trial |

## Left out

- Blade: the model follows `crates/larust-view/.rs`. The crate's `src/resolve.rs` is a later version with persisted globals, resource loading and more nodes with bodies, which is not modelled. `Other` stands for every node the resolver does not match on.
- Blade: `load` is a finite map of parsed templates; a callback that answers differently the second time, and the text of parse errors, are not modelled. What the accumulators hold after a collector has failed is not stated, since the resolver then returns the error and drops them.
- Blade: the parser and the code generator. The renderer gives leaves an arbitrary meaning instead.
- CacheStore.SqlStore.Put: table creation, pool errors and SQL dialects are one `ready` flag; the 4000 and 255 character column limits of MySQL are part of `statementOk`.
- CacheConcurrency.InterleavingsAreSafe: statements are atomic, as the database makes them; JSON decoding of the row is left to the sequential model, and `remember`'s two halves appear as separate calls.
- The Redis driver, whose rule for fractions of a second differs.
- ReleaseRuns.EveryRunIsSafe: one writer at a time per prefix, since the code has no lock between two deploys or two sessions; small writes (the current-release file) succeed, while copies and removals may fail; as many 64-bit numbers must be left as the run has steps. States are observed between operations, not inside one.
- ReleaseNumbers.NumbersRiseExactly: the same assumptions; a deploy that leaves a partial file counts as having used its number.
- ReleaseStore.PruneKeepsTarget: paths that name one file are equal here, so `canonicalize`, symbolic links and relative current-release contents are resolved before the model starts. Directories in the place of slots are removals that fail.
- The `exec` into a release, the detached deploy process, systemd and the Windows variants.
- Supervisor.SupervisorIsSafe: processes, sockets and the admin channel are outcomes and a log of commands; status messages, asset reloads and a poisoned mutex are not modelled. Publishing and pruning of the supervisor's slots are in `ReleaseRuns`.
- CargoFeature.AddFeatureIsIdempotent: positions are characters where the code uses bytes; the patterns searched for are ASCII, so the cuts are the same. Features with quotes, commas, brackets or white space, which the framework does not have, are excluded.
- CargoWellFormed.CommasStayExactly: strings with three quotes and quoted keys are not told apart, nested arrays and tables are not looked into, and names that need escapes are excluded.
- ReleaseNotes.CommitsAreConserved: reads `git log` output as given; `git`, `cargo` and `npm` calls are not modelled.
- PackageVersion.BumpIsHigherExactly: pre-release and build metadata, which the code refuses.
- Subscriptions.MirrorIsTheFold: "last" is by delivery, as in the code; an old event delivered late overwrites a newer one. Table creation is part of the lookup; the readers' failing statements are left out.
- Subscriptions.Cashier.DoHandleWebhook: whether a signature is right is an input; `verify_signature` itself is not modelled.
- Session guards, policies and password hashing: cryptography or thin wrappers.
- Checkout, cancelling, resuming and swapping subscriptions: calls to Stripe.
- `strip_ansi_codes`, `scaffold.rs`, `convert.rs`, `generate.rs`, `config_template.rs`, argument parsing, `xr list` and `xr kill`: they fill string templates, copy files and print tables.

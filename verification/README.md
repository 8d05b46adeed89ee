# A model of gofresh, and proofs about it

gofresh decides whether cached test evidence is still trustworthy. This project models the parts of it
that carry that decision and proves what each promises. `dafny verify dfyconfig.toml` checks everything.

## What is modelled

The modules follow the repository's files; each imperative operation is a method or a class proved against
a function or predicate of its state, and the theorems are about those.

- **Observation bracket.** `Paths` is the abstract filesystem: a nonfollowing lookup from clean component
  paths to missing, file, directory, link or unreadable. `Walk` is `chainResolve` with its hop budget and
  the facts it records; `WalkLaws` says where it lands, `Lookups` what it learned about its own result,
  `WalkFacts` that its facts are true and that a rebinding between two walks shows up in them, and
  `Absence` when a vanishing does. `Coverage` is per-identity coverage and why a covered
  identity cannot be rebound; `GuardCover` is the same for guard roots; `Regions` says which paths either
  comes to, root by root and exclusion by exclusion. `Congruence` is the kernel's
  pathname resolution (POSIX.1-2017 Base Definitions, section 4.13) and when lexical cleaning matches it.
  `PathFacts` is the two-endpoint contradiction detector.
- **Refusal text.** `Quoting` is a concrete model of Go's quoted strings; `Attribution`, `OperationParse`,
  `MovedReason` and `MovedRoundTrip` compose refusal reasons and take them apart again.
- **Unit transactions.** `Judgment` is the verdict ladder, `Checking` the two-reading kernel, `Verdicts` which
  answers it gives over a recording's own texts, `Closing` the second judgment at close; `Outcomes` names the admitted derivations. `Concurrency` holds what the
  concurrent models share. `CheckingUnits` and `Units` are the objects behind their mutexes, one method
  for each critical section; `CheckingRuns` and `UnitRuns` quantify over every interleaving of them.
- **One-shot memo.** `Memo`: the holder, and every interleaving of asks, cancellations and panics;
  `MemoKeys`: what a directory and an environment are filed under.
- **Memo store.** `CacheFile` is the eviction order and plan; `CacheStore` the store, with other
  goroutines' renames landing at every point of every pass.
- **Manifest union.** `Orders` sorts (the memo store's eviction too); `ManifestGrammar` is what a
  manifest may spell, `Manifests` its canonical form; `Merging`, `MergeMethod` and
  `MergeLaws` are the merge and its algebra.
- **Smaller protocols and formats.** `Contained` (process-group containment), `Canonical`,
  `CanonicalMeaning` and `CanonicalDeletion` (the canonical form of a Go file), `Retention` (the comments it
  retains), `BuildFlags` (quoted arguments), over `Strings`.

## Properties that hold under a condition

Each of these fails in general: there is a concrete or parametric counterexample, and the exact condition
under which the code does meet the property.

- *A resolved path has no symlink component, so resolving it again changes nothing.* A walk that climbs
  with `..` over a component that does not exist joins the rest lexically and can return a link
  (`WalkLaws.ClimbReturnsALink`). Over every filesystem that answers the walk's lookups alike, the result
  resolves to itself exactly when the walk looked up each prefix of it, as far as the first absent one, and
  found no link there (`Lookups.ResultIsStableExactly`). Without such a climb it always did; a climb back
  onto the same name is harmless, and one onto a name never looked up is not (`Lookups.ClimbsDiffer`).
- *A path that resolved at one endpoint and is absent at the other is found to have moved.* It is, exactly
  when some lookup before the absence has two answers or the absence is recorded
  (`Absence.AbsenceMovesExactly`). A link whose target's parent vanishes leaves accounts that agree
  (`Absence.VanishedParentIsSilent`).
- *A congruent traversal and its cleaned form resolve alike.* They do, except that the kernel demands a
  directory where the raw path ends in `.` or a slash and cleaning drops that demand
  (`Congruence.SlashAfterFile`, `Congruence.CongruenceIsExact`).
- *An unquoted member never contains bytes the split reads.* The recency list appends ` (` to a name, so a
  bare name ending in `;` forms `; `. A moved-bracket reason with a list splits into its clause and its list
  exactly when no shown touched member does so (`MovedRoundTrip.SemicolonLosesTheList`,
  `MovedRoundTrip.MovedReasonRoundTrip`); added and removed lists are not affected.
- *A moved-bracket reason with no list comes back whole.* A root that is one file has no members to name,
  and its reason is the clause alone. A quoted root always comes back whole; a bare one exactly when no
  separator in it is followed by an attribution that ends it (`MovedRoundTrip.BareReasonRoundTrip`). The
  root ``x — open `b` in `c` `` is cut after its `x` (`MovedRoundTrip.BackquotedRootIsDivided`).
- *A comment edit outside the retained classes adds no token and moves no digest.* Deleting a comment group
  that stands alone between `import` and `"C"` turns the comments before that import into a cgo preamble,
  because one lookup skips comments and the other does not
  (`CanonicalDeletion.DeletionExposesAPreamble`). The stream stays exactly otherwise
  (`CanonicalDeletion.DeletionExactly`).
- *No group signal without the unreaped-child premise.* Between the failed exit wait and the setting of the
  flag, a cancel still signals the group (`Contained.WindowExactly`, `Contained.WindowIsReached`); after the
  flag, never (`Contained.MarkedIsSilent`).
- *A holder has one answer.* `prime` on a holder that has an answer, or has one on the way, stores a second
  (`Memo.LatePrimeStoresTwo`, `Memo.PrimeDuringTake`); primed before any ask, one answer is all there ever is.

## Model

| member | source | states |
|---|---|---|
| `PathFacts.Facts.Put` | runtimeinput/pathfacts.go:58-68 | adds one value to a fact's set and changes nothing else; a fact may hold several values |
| `PathFacts.Facts.AddListing` | runtimeinput/pathfacts.go:74-97 | adds one listing, partial ones included, and for a complete listing keeps what was there |
| `PathFacts.MovedBracketRoot` | runtimeinput/pathfacts.go:156-282 | -1 exactly when one filesystem state satisfies every fact of both endpoints; otherwise the least root that takes part in a contradiction, whatever order the maps are visited in |
| `PathFacts.MarkMoved` | runtimeinput/pathfacts.go:169-274 | marks exactly the roots that take part in a contradiction |
| `PathFacts.MarkScalars` | runtimeinput/pathfacts.go:214-235 | every root holding a fact with two values is marked, and only involved roots are |
| `PathFacts.MarkPresences` | runtimeinput/pathfacts.go:236-274 | every presence against an explicit absence or a complete non-excluding listing marks both roots, and only those |
| `PathFacts.SatisfiableIffPeaceful` | runtimeinput/pathfacts.go:149-155 | a state explaining all facts exists exactly when no two claims contradict: the state is built from the facts |
| `PathFacts.MovementPersists` | runtimeinput/pathfacts.go:149-282 | further facts never turn movement into agreement, and keep every involved root involved |
| `Walk.ChainResolveObserved` | runtimeinput/bracket.go:526-603 | terminates on every filesystem, cyclic links included; answers the walk, and records exactly the walk's facts |
| `Walk.ChainResolve` | runtimeinput/bracket.go:522-524 | the same answer, with no facts |
| `WalkLaws.StepsLand` | runtimeinput/bracket.go:526-603 | a walk ends at a path whose components are all files or directories, or one name past such a path, and traverses only links |
| `WalkLaws.StepsAppend` | runtimeinput/bracket.go:530-600 | walking two stretches is walking one and then the other from where it ended |
| `WalkLaws.ReresolutionIsStable` | runtimeinput/bracket.go:508-603 | in one filesystem a result resolves to itself with no links exactly when no component of it, up to the first absent one, is a link; it is so whenever the walk did not climb over an absence |
| `Lookups.ResultIsStableExactly` | runtimeinput/bracket.go:508-603 | a result resolves to itself, with no links, in every filesystem that answers the lookups of its walk alike, exactly when the walk looked up each prefix of it as far as the first absent one and found no link |
| `Lookups.WalkReadsItsLookups` | runtimeinput/bracket.go:526-603 | a walk depends on nothing but its lookups |
| `Lookups.LandingWasLookedUp` | runtimeinput/bracket.go:526-603 | a walk that is not refused looked up every prefix of where it landed, and could read everything it looked up |
| `Lookups.ClimbsDiffer` | runtimeinput/bracket.go:552-566 | a climb over an absence back onto the same name is certain, and one onto a name never looked up is not |
| `WalkLaws.ClimbReturnsALink` | runtimeinput/bracket.go:552-566 | the family of walks whose result is a link |
| `WalkFacts.WalkRecordsTruth` | runtimeinput/bracket.go:526-603 | every fact a walk adds is true of the filesystem it walked |
| `WalkFacts.UnchangedNeverMoves` | runtimeinput/pathfacts.go:149-282 | walks of one unchanged filesystem, at both endpoints and under any number of roots, are never found to have moved |
| `WalkFacts.RebindingAlwaysMoves` | runtimeinput/pathfacts.go:149-282 | a path whose walk resolved at both endpoints, but to another object or through other links, is always found to have moved |
| `Absence.AbsenceMovesExactly` | runtimeinput/pathfacts.go:149-282 | a path that resolved at one endpoint and is absent at the other is found to have moved exactly when a lookup before the absence has two answers or the absence is recorded |
| `Absence.AppearanceMovesAlike` | runtimeinput/pathfacts.go:173-174 | it does not matter which endpoint came first |
| `Absence.ResolvedFindsItself` | runtimeinput/bracket.go:566-603 | a walk that resolves records its own path as found |
| `Absence.VanishedParentIsSilent` | runtimeinput/bracket.go:552-603 | the vanishing of a link target's parent leaves accounts that agree |
| `Coverage.CoverageOf` | runtimeinput/bracket.go:365-397 | the view holds each root's resolved position under the resolved module root |
| `Coverage.Contains` | runtimeinput/bracket.go:487-506 | inside exactly when some root holds the target at or under its resolved path and outside every exclusion |
| `Coverage.CoversAbsolute` | runtimeinput/bracket.go:445-480 | covered exactly when some absolute root's walk ends and passes inside; otherwise it names a link that escaped |
| `Coverage.Covers` | runtimeinput/bracket.go:399-439 | covered exactly when not excluded, inside the module, and some walk from its start is spanned; the escape named is a real one; an identity at or below an exclusion is never covered |
| `Coverage.CoveredCannotRebind` | runtimeinput/bracket.go:399-506 | with every link outside the region retargeted arbitrarily, a covered identity walks to the same object through the same links and stays covered |
| `Coverage.ResidenceIsExact` | runtimeinput/bracket.go:457-480 | a walk withstands every retargeting outside a region exactly when all its links lie inside: the rule refuses nothing needlessly |
| `Paths.ExcludesExactly` | runtimeinput/testlog.go:241-258 | an exclusion leaves out itself and every path of its kind below it, and nothing else is left out |
| `Paths.OffsetExactly` | runtimeinput/bracket.go:604-619 | a path stands at exactly the offset that leads to it from the root |
| `Regions.HeldExactly` | runtimeinput/bracket.go:487-506 | a root holds exactly what stands at or below its resolved position and, spelled below the root as declared, at or below no exclusion |
| `Regions.ExcludedIsNotHeld` | runtimeinput/bracket.go:500-502 | no excluded subtree, nor anything in it, is held by the root it is excluded under |
| `Regions.SpannedExactly` | runtimeinput/bracket.go:410-439 | a walk is spanned exactly when it ends, and ends and passes only where some root holds |
| `Regions.CoveredExactly` | runtimeinput/bracket.go:399-480 | a relative identity is covered exactly when its walk below the module root stays inside; an absolute one exactly when, under some absolute root declared at or above it, the walk from that root's position does |
| `Regions.RelativeExactly` | runtimeinput/bracket.go:365-378 | a relative name leads where it leads below the declared module directory, and the links that directory traverses itself do not count |
| `Regions.PositionExactly` | runtimeinput/bracket.go:365-383 | every root stands where its declared path leads; a root whose absolute path leads nowhere has no position |
| `Regions.CleanStaysInside` | runtimeinput/bracket.go:399-409 | a clean identity never escapes the module |
| `Regions.EscapeExactly` | runtimeinput/bracket.go:419-432 | an escaped link is named below the module root when it stands there, else by its whole path |
| `GuardCover.Admits` | runtimeinput/testlog.go:603-614 | the first of the lexical and resolved forms that holds the path decides, less the excluded subtree |
| `GuardCover.GuardCovered` | runtimeinput/testlog.go:724-767 | covered exactly when one root alone admits the path, its existing object and every link of its walk |
| `GuardCover.GuardCoveredCannotRebind` | runtimeinput/testlog.go:707-714 | links a root does not admit can be retargeted arbitrarily without moving a covered path |
| `Regions.AdmittedExactly` | runtimeinput/testlog.go:601-614 | a guard root admits exactly what stands at or below its lexical form, outside its one uncovered subtree, or outside that form altogether and so in the resolved one |
| `Regions.GuardCoveredExactly` | runtimeinput/testlog.go:724-767 | a path whose object exists is covered by a root exactly when the root admits the path, the object and every link of the walk |
| `Regions.AbsentIsNotCovered` | runtimeinput/testlog.go:737-752 | a path whose object does not exist is never guard-covered |
| `Congruence.CongruentTraversal` | runtimeinput/testlog.go:819-854 | true exactly when every directory stepped back over is a real, non-volatile directory, read through the kernel's own resolution |
| `Congruence.AmbiguousTraversal` | runtimeinput/testlog.go:786-809 | ambiguous exactly when the name climbs and is not congruent; a name judged unambiguous resolves alike raw and cleaned |
| `Congruence.CongruentExactly` | runtimeinput/testlog.go:811-854 | a name is congruent exactly when each of its `..` steps back from the root, or out of a real directory that is not volatile, at the place cleaning stands there |
| `Congruence.UnambiguousResolvesAlike` | runtimeinput/testlog.go:786-797 | a name that never climbs, or climbs congruently, resolves alike raw and cleaned |
| `Congruence.StepsFollowKernel` | runtimeinput/bracket.go:526-603 | whatever the kernel resolves within its lower link budget, the resolver resolves to the same object through the same links |
| `Congruence.CongruentAnswersAgree` | runtimeinput/testlog.go:786-797 | for a congruent name the resolver answers the same for the raw path and its cleaned form |
| `Congruence.CongruentKernelAgrees` | runtimeinput/testlog.go:786-797 | for a congruent name the kernel resolves raw and cleaned forms alike, up to a directory demanded at the end |
| `Congruence.CongruenceIsExact` | runtimeinput/testlog.go:786-854 | they agree entirely, except exactly when the raw form ends in `.` or a slash after something that is no directory |
| `Congruence.SlashAfterFile` | runtimeinput/testlog.go:831-853 | the concrete disagreement |
| `Quoting.UnquoteQuote` | runtimeinput/attribution.go:239-244 | quoting loses nothing |
| `Quoting.PlainQuotes` | runtimeinput/attribution.go:389-394 | a name of printable characters is quoted as it stands |
| `Quoting.ScanQuote` | runtimeinput/attribution.go:206-216 | a quoted name is one literal wherever it stands |
| `Quoting.QuoteBars` | runtimeinput/attribution.go:206-216 | an unescaped quote ends every double-quoted literal begun before it |
| `Attribution.AttributionWellFormed` | runtimeinput/attribution.go:99-107 | exactly the operation form or the resolved-target form, to the end |
| `Attribution.OperationDivides` | runtimeinput/attribution.go:79-97 | no separator before the composed one is followed by an attribution, whatever the clause and the names hold |
| `Attribution.ResolvedTargetDivides` | runtimeinput/attribution.go:246-252 | the same for a resolved target's attribution |
| `Attribution.OnlyPair` | runtimeinput/attribution.go:204-237 | two literals around the same middle that run to the end are the two names composed, and no other pair in the text |
| `MovedReason.SplitAttribution` | runtimeinput/attribution.go:79-97 | the split: a moved bracket's list if there is one, else at the first separator whose suffix is one attribution |
| `MovedReason.SplitBracketAttribution` | runtimeinput/attribution.go:174-202 | a quoted root is consumed whole, a bare one up to the first list that is well formed |
| `MovedReason.SplitBare` | runtimeinput/attribution.go:191-201 | the first " [" whose suffix is one well-formed list |
| `MovedReason.BracketAttributionParts` | runtimeinput/attribution.go:139-160 | parts end at separators outside quoted members |
| `MovedReason.BracketAttributionWellFormed` | runtimeinput/attribution.go:112-133 | bracketed, with every part labelled |
| `MovedReason.SplitReassembles` | runtimeinput/attribution.go:49-97 | a split loses nothing: its halves and their separator are the reason |
| `MovedReason.OperationRoundTrip` | runtimeinput/attribution.go:79-107 | for every clause, recognised operation, name and directory, splitting the composed reason gives exactly the clause and the attribution |
| `MovedReason.ResolvedTargetRoundTrip` | runtimeinput/attribution.go:246-252 | the same for every resolved target |
| `MovedReason.CanonicalIsIdempotent` | runtimeinput/attribution.go:357-378 | re-keying twice is re-keying once, on every string |
| `MovedReason.ComposedIsCanonical` | runtimeinput/attribution.go:338-355 | a composed clause is left alone |
| `MovedReason.CanonicalExactly` | runtimeinput/attribution.go:357-378 | a bare root that must be quoted re-keys to its quoted clause; the quoted spelling of such a name, any plain root and any other clause stay |
| `MovedReason.NeedsQuoteExactly` | runtimeinput/attribution.go:380-394 | a name is quoted exactly when it carries NUL, a line end, a bracket or a quote, or `; ` somewhere in it |
| `MovedReason.ComposedSpell` | runtimeinput/attribution.go:239-253 | the composed attributions and clause, spelled out |
| `MovedReason.ListSpells` | runtimeinput/attribution.go:285-325 | the list names what was added and removed, and only when nothing was either, what was touched |
| `MovedReason.CappedSpells` | internal/render/render.go:11-22 | at most three members are shown, and how many more |
| `MovedRoundTrip.MovedReasonRoundTrip` | runtimeinput/attribution.go:269-325 | for every root and motion, the reason splits into exactly its clause and its list, if and only if no shown touched member travels bare with a `;` at its end; with no list, if and only if the root is quoted or nothing in it divides |
| `MovedRoundTrip.BareReasonRoundTrip` | runtimeinput/bracket.go:208-210 | the reason with no list comes back whole exactly when its root is quoted or no separator in it is followed by an attribution that ends it |
| `MovedRoundTrip.QuotedRootIsUndivided` | runtimeinput/attribution.go:338-355 | no separator divides the clause of a quoted root, whatever the root spells |
| `MovedRoundTrip.BackquotedRootIsDivided` | runtimeinput/attribution.go:318-321 | a bare root that spells an attribution in backquotes loses its end |
| `MovedRoundTrip.ListedSplits` | runtimeinput/attribution.go:162-202 | a list at its clause's end is found there exactly when every part is labelled, for bare and quoted roots |
| `MovedRoundTrip.SafeListIsWellFormed` | runtimeinput/attribution.go:139-160 | a safe list comes apart into the parts it was joined from |
| `MovedRoundTrip.UnsafeListIsMalformed` | runtimeinput/attribution.go:314-314 | a bare name ending in `;` always leaves a part without a label |
| `MovedRoundTrip.SemicolonLosesTheList` | runtimeinput/attribution.go:314-314 | the touched file `a;` loses its list |
| `OperationParse.ParseOperation` | runtimeinput/observation.go:246-267 | the first operation whose prefix stands decides, and the form runs exactly to the end |
| `OperationParse.ParseUndoesCompose` | runtimeinput/observation.go:246-267 | parsing a composed attribution gives back the operation, the quoted name and the directory |
| `OperationParse.ConversionKeepsTheRest` | runtimeinput/observation.go:234-240 | a conversion rewrites the directory alone, and there and back is no change |
| `Judgment.EvidenceRefusesExactly` | judgment.go:255-294 | recorded evidence refuses exactly when some identity or strategy disagrees, always as stale and with no authority |
| `Judgment.CompareGuards` | internal/guard/guard.go:230-254 | the first guard that disagrees |
| `Judgment.GuardsAgreeExactly` | internal/guard/guard.go:230-254 | agreement is agreement of every guard the kind asks for, none of them empty |
| `Judgment.ValidExactly` | judgment.go:305-412 | valid exactly when all guards agree, nothing is declared external, and every unhashable dependence is lifted by purity or by a completed observation |
| `Judgment.AuthorityOnlyLifts` | judgment.go:320-376 | purity and observations never change a stale or an external verdict, never withdraw a valid one, and no observation lifts process-shared state |
| `Judgment.ValidHasNoCause` | judgment.go:10-15 | a cause accompanies every refusal and no valid judgment |
| `Verdicts.AttributionExactly` | judgment.go:157-168 | each of the three asserting texts names its own responsibility, and every other text none |
| `Verdicts.ObservationExactly` | judgment.go:170-182 | an observation speaks exactly when its proof fits, under the policy now in force, over an observable subject, by its outcome or by freedom from effects |
| `Verdicts.CauseExactly` | judgment.go:309-412 | which refusal is told, in order: inputs, then guards, then toolchain evidence, then the author's word, then what cannot be hashed; each under its own cause and condition |
| `Verdicts.GuardCause` | internal/guard/guard.go:230-254 | the refusing guard is the first of the kind's that does not hold, missing exactly when either text is empty |
| `Verdicts.AuthorityIsUsed` | judgment.go:320-376 | a valid answer names purity exactly where it lifted something, and an observation exactly where it did |
| `Verdicts.EvidenceCause` | judgment.go:255-294 | which disagreement of evidence is told first, under which condition |
| `Verdicts.EffectiveExactly` | fingerprint.go:116-140 | the compartment judged is the extension's when there is one, and which extensions are recognized |
| `Checking.ObserveInputs` | checking.go:105-131 | one reading for each distinct manifest at one endpoint, and none for records that need none |
| `Checking.Select` | checking.go:184-201 | selects exactly the extensions whose answer rests on observation, and asks each subject's proof once |
| `Checking.CheckRecords` | checking.go:146-249 | every record's result is the one its own two readings and its subject's proof decide; equal manifests share both readings |
| `Verdicts.AnswerIsValidExactly` | checking.go:146-249 | over the recording's own texts: an evaluated record is valid exactly when its inputs stayed one state with the recorded digest, every guard holds, nothing withholds it, and whatever cannot be hashed is asserted by both sides or discharged by a fitting observation that is still supported |
| `Verdicts.SelectedExactly` | checking.go:184-241 | which records ask for a current proof, when the answer reports it, and when its absence is why there is none |
| `Verdicts.AnswerIsScoped` | judgment.go:184-205 | every answer names its subject and kind; a cut blames nobody; discharges stand only where the guards were agreed |
| `Verdicts.RefusedAnswer` | checking.go:161-172 | a record is evaluated exactly when nothing refuses it beforehand and its evidence agrees; its refusal is then its answer |
| `Verdicts.MotionExactly` | checking.go:133-144 | inputs that moved between the readings make the answer stale, for that cause unless a guard already refused |
| `Closing.CloseSlots` | checking.go:500-542 | every slot is judged again and tied to its first judgment; on success everything the rounds licensed is still valid |
| `Closing.FinalAnswerExactly` | checking.go:133-144 | a slot provisionally stale closes with exactly that verdict, one never evaluated is not evaluated again; otherwise the final answer is valid exactly when the closing judgment is and all four readings of its inputs are one state |
| `Closing.FinalValidCertifies` | checking.go:512-541 | a final valid certifies the evidence at both views, the guards at the closing one, and the recorded digest of the one reading |
| `Verdicts.FinalValidExactly` | checking.go:500-542 | over the recording's own texts: exactly when a final answer is valid |
| `Closing.RefusedIsStale` | checking.go:505-511 | a slot never evaluated holds a stale refusal |
| `Closing.LicenceHolds` | checking.go:526-536 | a licensed slot of a closed unit is valid over one state of its inputs, and an extension returns the fingerprint it was granted |
| `CheckingUnits.CheckingUnit.Admit` | checking.go:370-390 | a round's admission section: input refusals change nothing |
| `CheckingUnits.CheckingUnit.Finish` | checking.go:415-430 | the commit boundary: the caller's cancellation outranks the unit's own transitions |
| `CheckingUnits.CheckingUnit.Commit` | checking.go:397-410 | appends the round's slots, filled, and answers each at its index; a refusal appends nothing |
| `CheckingUnits.CheckingUnit.Abort` | checking.go:442-454 | aborts an open or closing unit and interrupts its work, and leaves an ended one alone |
| `CheckingUnits.CheckingUnit.BeginClose` | checking.go:463-487 | closes only an open unit; a busy or cancelled one fails and its round is interrupted |
| `CheckingUnits.CheckingUnit.EndClose` | checking.go:490-497 | the terminal transition |
| `CheckingUnits.Extend` | checking.go:327-352 | a batch of extensions is admitted whole or not at all, each from the slot it names |
| `CheckingUnits.ExtensionChangesOnlyTheCompartment` | checking.go:663-700 | an extension keeps the subject and every part of the recording but the effective compartment, and is admitted exactly when that is all that moved |
| `CheckingRuns.InvHolds` | checking.go:278-290 | in every run one call at a time works, the flags say which, slots and answers agree |
| `CheckingRuns.RunsAdvance` | checking.go:278-290 | the phase never goes back, slots are only appended, and what a call was answered stands |
| `CheckingRuns.NeverReopens` | checking.go:440-454 | a unit that left open is never open again |
| `CheckingRuns.OneCloseSucceeds` | checking.go:456-498 | at most one Close succeeds in a run |
| `CheckingRuns.AbortIsFinal` | checking.go:440-454 | after an Abort that found the unit open or closing, its work is interrupted and no Close succeeds |
| `CheckingRuns.FrozenWhileClosing` | checking.go:456-498 | no slot and no flag changes while closing runs unlocked |
| `CheckingRuns.CloseDuringRoundRefuses` | checking.go:278-281 | closing during a round interrupts it and refuses |
| `CheckingRuns.CloseAnswersEverySlot` | checking.go:456-542 | a success answers every slot any round acknowledged, at its original index and for its subject, stale ones as they were, valid wherever a round licensed an extension or relied on a current proof, and valid only over one state of their inputs |
| `CheckingRuns.UndisturbedCloseSucceeds` | checking.go:459-498 | an open idle unit whose closing pass does not fail closes, when nothing comes between |
| `CheckingRuns.AdmissionExactly` | checking.go:370-390 | a round is admitted exactly when its caller stands, the unit is open and its inputs are admissible; a refused one changes nothing |
| `CheckingRuns.RoundEndsExactly` | checking.go:390-430 | the caller's cancellation is told first, then an Abort, then the round's own failure; only a round that came through appends, each slot under its own result |
| `CheckingRuns.CloseEndsExactly` | checking.go:488-498 | the same order at the end of Close, which closes the unit exactly when it answers |
| `Units.Unit.ReserveExecution` | unit.go:216-226 | reserves the one contributor, or refuses |
| `Units.Unit.CommitRegistration` | unit.go:256-286 | prepares the reserved execution and hands out its contribution, unless cancelled, closed or failed |
| `Units.Unit.SubmitTerminal` | unit.go:291-311 | writes the terminal of this unit's own prepared execution once, and refuses every other contribution |
| `Units.Unit.Abort` | unit.go:317-332 | aborts an open or closing unit, interrupting preparation and closing |
| `Units.Unit.BeginClose` | unit.go:415-432 | freezes the roster and cancels a preparation in flight |
| `Units.Unit.RecordObservation` | unit.go:629-638 | retains the finalized observation and changes nothing else |
| `Units.Unit.EndClose` | unit.go:433-450 | the deferred commit: any failure returns the empty result |
| `Units.Unit.ReadAccount` | unit.go:587-624 | supported exactly when the observation is complete and carries every observed subject's outcome, in whatever order they are looked at |
| `Units.DispositionExactly` | unit.go:587-624 | unknown, incomplete, supported or identity, each under its exact condition |
| `Units.SelectObserved` | unit.go:229-240 | observes exactly the subjects whose evidence is not already valid |
| `Units.UnobservedIsSufficient` | unit.go:232-239 | a subject left unobserved is valid whatever its inputs turn out to be |
| `UnitRuns.InvHolds` | unit.go:127-139 | what every section keeps of the execution and of closing |
| `UnitRuns.OneContributor` | unit.go:127-130 | at most one contributor is ever reserved |
| `UnitRuns.TerminalIsWrittenOnce` | unit.go:289-311 | a terminal is written once, and only after preparation |
| `UnitRuns.FrozenFromClosing` | unit.go:407-432 | from the start of closing everything but the observation is frozen |
| `UnitRuns.CloseSucceedsOnce` | unit.go:407-529 | a Close that succeeds reports the one execution, prepared, submitted as started and unmoved, observed exactly when an observation was needed; no other Close of the unit succeeds |
| `UnitRuns.AbortIsFinal` | unit.go:313-332 | after an Abort that found the unit open or closing no Close succeeds |
| `UnitRuns.CancelledCloseRefuses` | unit.go:433-450 | a Close whose caller is cancelled at its commit refuses with that |
| `UnitRuns.ClosingEndsPreparation` | unit.go:175-178 | closing cancels a preparation in flight, which then never contributes |
| `UnitRuns.UndisturbedCloseSucceeds` | unit.go:457-529 | an executed contribution closes with its account when nothing comes between: observed first exactly when it needs observation |
| `UnitRuns.RegistrationExactly` | unit.go:256-286 | a preparation contributes exactly when its caller stands, the unit is open and it did not fail; an open unit it does not contribute to has failed |
| `UnitRuns.SubmissionExactly` | unit.go:289-311 | nothing but the first submission of the started call's own contribution moves an open unit, and it moves the terminal alone |
| `UnitRuns.JudgementExactly` | unit.go:493-516 | a close concludes exactly when everything attached, checked and validated and the inputs did not move; other drift is told before movement, movement before missing evidence |
| `UnitRuns.CloseEndsExactly` | unit.go:433-450 | cancellation is told first, then an Abort, then the close's own failure; only a concluded close closes the unit |
| `Memo.Once.AskOnce` | gotool/memo.go:104-116 | answers, takes, or waits on the take in flight |
| `Memo.Once.EndTake` | gotool/memo.go:133-150 | stores what the take may store and always releases its waiters |
| `Memo.Once.PrimeWith` | gotool/memo.go:91-95 | overwrites the value |
| `MemoKeys.NormalizeEnv` | gotool/env.go:75-101 | admits exactly the environments of complete entries without NUL, each name once, and orders them by name and then entry |
| `MemoKeys.MemoKey` | gotool/memo.go:10-35 | a key exactly for an admissible environment: the coordinate and the ordered entries, less PWD when a directory is named |
| `MemoKeys.KeysExactly` | gotool/memo.go:10-20 | two keys are equal exactly when the coordinates are and the environments carry the same settings |
| `MemoKeys.EntryExactly` | gotool/env.go:206-216 | a complete entry is a nonempty name, `=` and a value, the name what stands before the first `=` |
| `MemoKeys.CarriedExactly` | gotool/memo.go:24-31 | a setting is left out of a key exactly when a directory is named and it sets PWD |
| `MemoKeys.KeySpells` | gotool/memo.go:26-34 | a key is the coordinate followed by each entry after a NUL |
| `MemoKeys.KeptInOrder` | gotool/env.go:193-204 | the entries of a key stand in the byte order of their names |
| `Memo.RunMemo.Get` | gotool/memo.go:53-70 | one holder for each key, made on the first ask; a malformed environment is refused and files nothing |
| `Memo.InvHolds` | gotool/memo.go:72-88 | one take at a time, on the channel in flight, and no waiter on a channel that cannot close |
| `Memo.OneAnswerEver` | gotool/memo.go:72-88 | primed in time, if at all, at most one answer is stored and every return without cancellation is that answer |
| `Memo.LatePrimeStoresTwo` | gotool/memo.go:90-95 | priming can store a second answer exactly when the holder has one or one is on the way |
| `Memo.PrimeDuringTake` | gotool/memo.go:90-95 | two calls that return two answers |
| `Memo.OneTake` | gotool/memo.go:123-150 | at most one caller runs fn; a cancelled or panicking take stores nothing and ends the flight |
| `Memo.TakeEndsExactly` | gotool/memo.go:123-150 | an answer is stored and returned, a failure included, unless the caller's own context ended over a failure; every ending releases the waiters |
| `Memo.WaitersWake` | gotool/memo.go:110-122 | a waiter can wake now, or as soon as the running take ends, however it ends |
| `CacheFile.PlanIsShortestPrefix` | internal/cachefile/cachefile.go:320-365 | eviction is exactly the shortest prefix of the order that reaches the target |
| `CacheFile.PlanIgnoresScanOrder` | internal/cachefile/cachefile.go:322-344 | the walk's order does not change what is evicted |
| `CacheFile.PlanEvictsOldest` | internal/cachefile/cachefile.go:322-344 | whatever is evicted is older than whatever is kept, by modification time, then by record, then by path; the entry just written aside |
| `CacheFile.JustWrittenStays` | internal/cachefile/cachefile.go:323-330 | the entry just written is never evicted if it fits |
| `CacheFile.OrderIsTotal` | internal/cachefile/cachefile.go:322-344 | the comparison is a total order |
| `CacheStore.Store.Scan` | internal/cachefile/cachefile.go:266-318 | every settled entry is found as it is, whatever is renamed during the walk |
| `CacheStore.Store.Evict` | internal/cachefile/cachefile.go:345-365 | removes exactly the counted prefix; what is settled stays listed among what remains |
| `CacheStore.Store.PruneLocked` | internal/cachefile/cachefile.go:252-375 | used is reclaimed and remaining, the oldest entries go and no others, their sequence numbers with them, and the counter bounds what is settled |
| `CacheStore.Store.Rename` | internal/cachefile/cachefile.go:191-195 | a renamed write is on disk and not yet recorded |
| `CacheStore.Store.Record` | internal/cachefile/cachefile.go:198-212 | after a record the counter is valid and within the limit, the entry has the next sequence number, and only the oldest entries besides it are evicted |
| `CacheStore.Store.Prune` | internal/cachefile/cachefile.go:219-229 | an explicit pass keeps the bound and reports its plan |
| `CacheStore.Store.PreviewPrune` | internal/cachefile/cachefile.go:233-243 | reports the plan, removes nothing and leaves the counter alone |
| `CacheStore.Store.WithinLimit` | internal/cachefile/cachefile.go:24-30 | entry bytes exceed the counter, and once a write was recorded the limit, by at most the unrecorded writes; a quiescent store is within its limit |
| `CacheStore.DiskIsBounded` | internal/cachefile/cachefile.go:198-212 | every unsettled file is paid for by its own pending write |
| `CacheStore.SettlingAdds` | internal/cachefile/cachefile.go:207-210 | a record settles at most its own bytes, overwritten entries included |
| `CacheStore.PreviewAgrees` | internal/cachefile/cachefile.go:231-243 | a preview and a pass over the same entries report the same counts |
| `Orders.SortIgnoresOrder` | runtimeinput/manifest.go:261-275 | there is one sorted arrangement of elements the order tells apart |
| `Orders.StringLeqExactly` | internal/cachefile/cachefile.go:343-343 | the byte order: the first text ends where they part, or has the lesser character there |
| `Manifests.Compact` | runtimeinput/manifest.go:277-288 | collapses equal neighbours |
| `Manifests.SortManifest` | runtimeinput/manifest.go:261-275 | every list in order, without repetition |
| `Manifests.SortedFormIsCanonical` | runtimeinput/manifest.go:261-288 | sorting keeps exactly the records and leaves each once |
| `Manifests.CanonicalIsUnique` | runtimeinput/manifest.go:209-214 | a canonical manifest is determined by its records |
| `Manifests.Populate` | runtimeinput/manifest.go:140-184 | digests every input in canonical order, with the first reason in that order |
| `Manifests.ComputeState` | runtimeinput/manifest.go:188-221 | the state of a manifest under one world: unverifiable exactly when it records a reason or names an object that cannot be digested faithfully, and its reason explains that |
| `Manifests.StateExactly` | runtimeinput/manifest.go:140-207 | the same of the manifest as recorded, in whatever order: the least recorded reason if it says anything, else that of the least troubled identity |
| `Manifests.StateIsExplained` | runtimeinput/manifest.go:188-207 | every state has exactly one such explanation |
| `Manifests.CurrentStateStands` | runtimeinput/manifest.go:209-214 | a manifest whose inputs are unmoved re-encodes as it was recorded |
| `ManifestGrammar.ValidEntryDigest` | runtimeinput/manifest.go:465-475 | 32 lowercase hexadecimal characters |
| `ManifestGrammar.ValidatePathID` | runtimeinput/manifest.go:530-557 | accepts exactly the path identity grammar |
| `ManifestGrammar.IdentityExactly` | runtimeinput/manifest.go:528-557 | an accepted identity is the module itself, names below it, or names from the root: it never climbs, repeats a separator or carries a dot |
| `Manifests.Validate` | runtimeinput/manifest.go:477-526 | accepts exactly the manifests of this version whose records are well formed and whose identities are distinct, comparing neighbours only |
| `Merging.UpsertPath` | runtimeinput/observation.go:205-214 | one identity, one class: the first entry is kept and the class is the union |
| `Merging.CollectProcesses` | runtimeinput/observation.go:485-490 | refuses exactly when a process comes with two records |
| `MergeMethod.Collect` | runtimeinput/observation.go:502-522 | adds exactly one input's names, identities, classes, reasons and supported subjects |
| `MergeMethod.Merge` | runtimeinput/observation.go:469-553 | merges exactly when every input still says what its inputs say and no process conflicts; the result is the union: metadata-bound if some input bound it, moved if some input moved, unverifiable if some input was, supported exactly when every process-backed input is |
| `MergeMethod.MergeIsUnverifiableExactly` | runtimeinput/observation.go:469-536 | a merge is unverifiable exactly when one of its inputs is |
| `MergeMethod.RawIsAccepted` | runtimeinput/observation.go:524-532 | what a merge collects is always accepted by the encoding: support never meets paths |
| `MergeMethod.ProcesslessIsEmpty` | runtimeinput/observation.go:402-411 | an observation without a process has no evidence |
| `MergeMethod.StateIsStable` | runtimeinput/manifest.go:209-221 | digesting again changes nothing in a fixed world |
| `MergeLaws.MergeIgnoresOrder` | runtimeinput/observation.go:461-468 | the merge is a function of the set of its inputs |
| `MergeLaws.MergeIsIdempotent` | runtimeinput/observation.go:461-468 | merging one observation, however often repeated, gives it back |
| `MergeLaws.MergeIsAssociative` | runtimeinput/observation.go:461-468 | merging merged groups is merging their members |
| `MergeLaws.ConflictsAreTheSame` | runtimeinput/observation.go:485-490 | grouping does not change whether processes conflict |
| `Contained.DrainCollected` | gotool/collect_linux.go:116-152 | both copies are received, the first error is kept, and the pipes are closed once, exactly on a timeout |
| `Contained.NoSignalAfterReap` | gotool/collect_linux.go:42-45 | no group signal after Wait releases the leader's identity, and the sweep signals only an owned group |
| `Contained.SweepIsLast` | gotool/collect_linux.go:92-100 | a cancel in flight finishes before the last sweep, and nothing signals after it |
| `Contained.MarkedIsSilent` | gotool/collect_linux.go:83-90 | once the flag is set on a leader not owned, the group is never signalled |
| `Contained.WindowExactly` | gotool/collect_linux.go:65-73 | with ownership known lost, a cancel signals the group exactly when the flag is not set yet |
| `Contained.WindowIsReached` | gotool/collect_linux.go:82-86 | that window exists |
| `Canonical.LeadGroups` | internal/closure/canonical.go:178-202 | marks exactly the comments of groups that end on the line before the next token |
| `Canonical.CanonicalStream` | internal/closure/canonical.go:122-160 | the text given to the hash is the spelling of the entries |
| `Canonical.DecodeStream` | internal/closure/canonical.go:135-159 | the stream is uniquely decodable into tokens and retained comments with their attachment |
| `Canonical.StreamIsInjective` | internal/closure/canonical.go:79-87 | equal streams are equal forms |
| `Canonical.LineDirectiveIsDropped` | internal/closure/canonical.go:40-43 | no line directive is retained, whatever it names |
| `Retention.RetainedExactly` | internal/closure/canonical.go:35-77 | a comment is retained exactly when it exports, has `+build` for its first field, marks a generated file, or carries a directive of lowercase name, in line or block form |
| `CanonicalMeaning.LeadsExactly` | internal/closure/canonical.go:173-202 | a comment is attached exactly when a chain of comments from it, each by the line after the one before, ends on the line before the next token |
| `CanonicalMeaning.GroupExactly` | internal/closure/canonical.go:146-158 | the flags hold exactly inside an import's parentheses, and between an import and its opening one |
| `CanonicalMeaning.FoldsExactly` | internal/closure/canonical.go:122-160 | the form has every token, and of the comments exactly the retained ones and C preambles |
| `CanonicalMeaning.EntriesExactly` | internal/closure/canonical.go:122-160 | its entries are those items in their order, each spelled with its kind, literal and attachment |
| `CanonicalMeaning.RetainedIsInTheForm` | internal/closure/canonical.go:79-90 | a retained comment is always in the form |
| `CanonicalMeaning.EmbedIsInTheForm` | internal/closure/canonical.go:35-77 | an embed directive is |
| `CanonicalDeletion.LeadsStands` | internal/closure/canonical.go:173-202 | deleting a whole group changes no other comment's attachment |
| `CanonicalDeletion.FoldsStands` | internal/closure/canonical.go:224-237 | which comments fold after a deletion |
| `CanonicalDeletion.DeletionExactly` | internal/closure/canonical.go:79-87 | deleting a whole unretained group leaves the form as it was, except exactly when the group stands alone between import and "C" and an unretained comment precedes that import |
| `CanonicalDeletion.StreamStandsExactly` | internal/closure/canonical.go:79-160 | the same of the hashed text |
| `CanonicalDeletion.DeletionExposesAPreamble` | internal/closure/canonical.go:224-237 | the concrete file whose form a deletion changes |
| `BuildFlags.Fields` | internal/buildflags/quoted.go:11-34 | the fields of a text, or an unterminated quote |
| `BuildFlags.Join` | internal/buildflags/quoted.go:40-58 | a text exactly when every word is free of NUL and has a spelling |
| `BuildFlags.FieldsUndoJoin` | internal/buildflags/quoted.go:36-39 | splitting what Join wrote gives back the words |
| `BuildFlags.RefusedExactly` | internal/buildflags/quoted.go:36-39 | a word has no spelling exactly when it is a field of no text |
| `BuildFlags.JoinUndoesFields` | internal/buildflags/quoted.go:8-39 | Join takes every NUL-free result of Fields, and splitting again changes nothing |
| `BuildFlags.BlanksDivide` | internal/buildflags/quoted.go:8-34 | between two words a blank, a tab, a carriage return or a line feed divides, and no other character |
| `BuildFlags.QuotesEnclose` | internal/buildflags/quoted.go:11-34 | a quote ends at the next one like it and encloses everything between; an unclosed one leaves no fields |

## Left out

- Cancellation is an arbitrary answer to every poll, and timers an arbitrary expiry; no deadline is modelled.
- Real filesystem, process and environment access: replaced by maps, by step inputs and by arbitrary readings.
- A filesystem that changes in the middle of one walk, and links that fail to be read after being listed.
- SHA-256, JSON and base64: hashing is left out of streams and manifests, and a manifest stands for its own encoding; seals are taken as honest.
- Set-valued facts: the sorted, duplicate-free slices of the path facts are sets here.
- Invalid UTF-8 and nonprintable Unicode in quoted names, and platform forms other than Unix.
- `bracketMoveAttribution`'s set difference, stats and time formats: the sorted members and rendered stamps are its inputs; `render.CappedList` is taken as a `, ` join of three members and a count.
- Diagnostic texts of verdicts: the cause carries the decision; the one reason a consumer keys on is its own cause.
- Fitting an observation proof to a recording: its three answers are facts of the recording.
- `retain` and the snapshot-level checks and validations around the checking kernel.
- Frame capture, outcome support and log parsing in `Register` and `Close` of a unit: arbitrary outcomes.
- `Coordinate` of a directory: given with the directory.
- MemoKeys.KeysExactly: for coordinates without NUL, as every directory's is; `MemoKeys.NulInCoordinateCollides` shows what one with NUL could do.
- `SetRoot`, `SetMaxBytes`, directories, dot files and stat or removal failures of the memo store: the root and the limit are fixed.
- UTF-8 validity of a manifest's texts: strings are text.
- `Absolute` and `Relative` beyond the attribution's directory.
- Scanning Go source: the scanner's items are given; a file that does not scan has no form.
- `statCover`, scratch namespaces and the rest of the test-log ingest.
- Package loading, type checking, reachability analysis and the audit tables: they rest on libraries not shown.
- PathFacts.MovedBracketRoot: a cancelled poll ends it at any point, so it promises an answer only when none was.
- GuardCover.GuardCoveredCannotRebind: that a path stays covered is stated for walks that end at their object; a walk that climbs over an absence is the first exception above.

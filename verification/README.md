# Yunta's deciders, modelled and proved in Dafny

Yunta is a workflow engine. What it promises rests on small deciders: which globs may
overlap, who may grant a write, what the write fence admits and the close audit accepts,
which command a permission matches, whether a workflow has a cycle, who holds a lock, what
a hash covers, how a command line is quoted and read, how a directory is swapped into place
and taken back, and how long the host slept. This project models those deciders and proves
their properties for every input, every run and every reachable state.

| component | modules |
|---|---|
| globs: syntax and meaning, the overlap test, exact paths and whole trees | `GlobSyntax`, `GlobMeaning`, `GlobOverlap`, `GlobPaths` |
| protection, scope expansion, the grant window, the sets runs are built with | `Protection`, `Expansion`, `BuiltSets` |
| the write fence, the close audit, the roots of a session, what commands may write | `Fence`, `Sandbox` |
| command permissions | `Permissions` |
| cycle search, modes | `CycleSearch`, `Modes` |
| the lock | `Lock` |
| canonical JSON, the tree digest | `CanonicalJson`, `JsonReader`, `TreeDigest`, `Ordering` |
| shell words, output files, scripts | `ShellWords`, `ShellOutput`, `ShellRedirections`, `ShellScanner`, `ShellCommands`, `ShellLines`, `ShellScripts`, `ShellParts`, `ShellEscapes`, `ShellTrimming` |
| skill mounts, vendored packs | `Mounts`, `Vendor` |
| suspension of the host | `Wakefulness` |

`Wrappers` and `Sequences` hold the option and result types and the equations between
sequences the proofs share. Code that updates state in place is a class or a loop proved
against a function of its inputs; the lemmas are about that function.

Where a step of the file system may fail, a field `flaky` says whether the host may refuse
it, and every refusal is a free choice of the method: a contract that does not mention
`flaky` holds for every placement of failures.

## Where the code and what it says of itself differ

The model follows the code.

- The overlap test is said never to miss two globs that share a file
  (crates/core/src/glob.rs:267-269). A glob made of `**/` and nothing else selects every
  file, yet its suffix is read as `/`, so it is told apart from `src/*.rs`. `OverlapIsSound`
  needs one condition, `Missed`, which names exactly those pairs; `OverlapMissesExactly`
  proves it is exact and `MissedExample` gives a pair. A run whose project denies `**/` and
  nothing else is granted past that deny (`RecursionDenyIsMissed`, `RecursionDenyExample`).
  `UnsafeHasOpening`, `UnsafeExactly` and `RunUnsafeExactly` say exactly which sets are open
  to such a request.
- Every path a glob selects is said to end with its suffix (crates/core/src/glob.rs:316).
  `**/x` selects `x`, which does not end with `/x` (`RootMatchExample`); it fails for exactly
  the paths that are the whole suffix but its separator (`SuffixEndsExactly`). What holds is
  that `/` followed by the path does (`SuffixHolds`), and that is enough for the overlap test.
- The judgement of a request with a standing refusal is said to give the same refusal
  (crates/engine/src/scope_expansion.rs:174-178). It always denies, but a criterion that
  passed or could not run is read before the mode (`StandingRefusalExample`):
  `StandingRefusalStands` says exactly when the two denials are equal.
- A mode that narrows nothing is said to keep each list verbatim
  (crates/engine/src/modes.rs:76-77). It does exactly when the list repeats no id
  (`UnnarrowedIsVerbatim`, `RepeatIsNotVerbatim`).
- The removal of a stale lock does not check that the file still holds the record that was
  read, and the record is read before its process is asked after
  (crates/engine/src/lock.rs:202-213). Exclusion holds over a run exactly when no such
  removal meets the file of a running process (`ExclusionExactly`). Two stealers at once
  break it (`TwoStealersBothHold`), and so does one alone whose holder lets go and leaves
  between the read and the question, while another takes the lock
  (`LoneReaderRemovesAnothers`). It is enough that nobody removes the file or hands it over
  under a process that has read it (`UndisturbedExcludes`).
- A directory shared with a session is refused inside the checkout, not above it
  (crates/core/src/confinement.rs:157); one above opens every unprotected path of the
  checkout past the scope (`RootAboveOpensCheckout`).
- Tree digests are said to follow the lexicographic order of paths
  (crates/cli/src/pack.rs:187-192). The order is name by name, which is not the order of
  the texts (`PathOrderIsNotTextOrder`); `OrdersPartExactly` says for which paths the two
  differ. That the digest is unambiguous does not depend on which it is.
- Vendoring a tree with no file always fails, because the staging directory is made with
  the first file copied into it (`VendorIntoPlace`).
- `|&` separates simple commands, but asked for pipelines the scanner takes the `|` as it
  stands and lets the `&` separate, so one pipeline comes back as two
  (`PipeBothCutsPipeline`). Pipelines come back whole exactly when they have no such joint
  (`PipelineIsWholeExactly`).
- A redirection is said to be read whether or not it is glued to its neighbours
  (crates/core/src/shell.rs:66-69). What is glued after a file's name is read into the name,
  so of two redirections glued together the first names both (`GluedTargetIsMisread`).
- The number of a stream is said to be digits that are a word of their own
  (crates/core/src/shell.rs:98). It is what follows the last white space, so the word `x\ 2`
  numbers the mark it touches with its last sign (`MisledExample`). `NumberIsReadExactly` says
  when the number found is the spelled one, and `RedirectionsAreReadExactly` when a whole
  command's files are.
- A newline behind a `\` stands for a newline in a word (crates/core/src/shell.rs:48-52),
  where section 2.2.1 of the Shell Command Language in POSIX.1-2017 removes both
  (`JoinedExample`, `JoinedLinesReadExactly`); the scanner, which cuts a script into commands,
  does remove them outside quotes.
- Commands are said to be trimmed (crates/core/src/shell.rs:14-15), and they are of white
  space that belongs to a word too: the word `a\ ` loses its blank (`TrimmedExample`,
  `TrimmingKeepsWordsExactly`).
- What separates commands is said to do so only outside escapes, and a redirection's `&` not at
  all (crates/core/src/shell.rs:1-7). The scanner looks at the last sign it took and not at
  whether that sign was escaped: behind `\>` an `&` does not separate, where the shell starts the
  next command there, and behind an escaped blank a `#` opens a comment, where the shell reads
  the word on. `EscapedAngleHidesBackground` and `EscapedBlankOpensComment` are the families;
  `BackgroundSeparatesExactly` and `HashIsKeptExactly` say exactly when each sign is read which way.
- A loop's close is said to leave approved tests out (crates/core/src/protected.rs:66). It
  reports one that is also a lifted instruction file, or in the register: the lift takes the
  reason away and not the entry (`LoopCloseReportsTestExactly`).
- A suspension is said to be noticed once (crates/engine/src/wakefulness.rs:56-58). The
  awake clock is read before the lock is taken, so a reading taken before a sleep may reach
  the watch after it, and the sleep is then counted twice (`OutOfOrderCountsTwice`).

The steps the scanner takes at each character, the steps of the watch and of the grant
window are methods whose new state is a function of the old one; what those functions mean
is said by the lemmas over whole scripts, readings and batches: `EveryScriptHasParts` for
the scanner, which holds for every script there is.

## Model

| member | source | states |
|---|---|---|
| `GlobOverlap.OverlapIsSound` | crates/core/src/glob.rs:282-292 | any two globs that both select a path are reported as overlapping, outside the pairs `Missed` names; alternations, classes, escapes and root matches of `**/x` included |
| `GlobOverlap.OverlapMissesExactly` | crates/core/src/glob.rs:265-292 | two globs that share a file are told apart if and only if they are a missed pair, and a missed pair shares exactly the files of the glob that is not recursions alone |
| `GlobOverlap.MissedPair` | crates/core/src/glob.rs:320-332 | every glob of recursions alone and every plain text, star and plain text share a file and are told apart |
| `GlobOverlap.MissedExample` | crates/core/src/glob.rs:320-332 | `**/` and the Rust files of `src` both select `src/a.rs` and are told apart |
| `GlobOverlap.OverlapIsExactOnLiterals` | crates/core/src/glob.rs:282-305 | with a literal on either side the answer is yes if and only if some path is selected by both |
| `GlobOverlap.OverlapIsSymmetric` | crates/core/src/glob.rs:282-292 | the order of the two globs does not matter |
| `GlobOverlap.PrefixHolds` | crates/core/src/glob.rs:307-314 | every path a glob selects starts with its prefix |
| `GlobOverlap.SuffixHolds` | crates/core/src/glob.rs:316-332 | `/` followed by any selected path ends with the glob's suffix, unless the glob is recursions alone |
| `GlobOverlap.SuffixEndsExactly` | crates/core/src/glob.rs:316-332 | a selected path itself ends with the suffix if and only if the suffix is not the whole path behind a separator; recursions alone show a separator |
| `GlobOverlap.RootMatchHasNoSuffix` | crates/core/src/glob.rs:316-332 | for every plain name, `**/` and the name select the name, which does not end with the suffix |
| `GlobOverlap.RootMatchExample` | crates/core/src/glob.rs:316 | `**/x` selects `x`, which does not end with its suffix |
| `GlobOverlap.LoneRecursionIsText` | crates/core/src/glob.rs:320-332 | the globs that compile to one recursion and still show a suffix are exactly the texts `**/` repeated, and that suffix is `/` |
| `GlobOverlap.LiteralSelects` | crates/core/src/glob.rs:299-305 | a literal selects its own text and nothing else |
| `GlobMeaning.StarSelectsExactly` | crates/core/src/glob.rs:236-239 | between any two plain texts a star takes a run of one name: a path is selected if and only if what stands between the two holds no separator |
| `GlobMeaning.QuestionSelectsExactly` | crates/core/src/glob.rs:236-239 | a question mark takes exactly one sign that is no separator |
| `GlobMeaning.RangeSelectsExactly` | crates/core/src/glob.rs:236-239 | a class takes exactly one sign of its range, a negated one any other, and a range that runs down is no glob |
| `GlobMeaning.LeadingRecursionSelectsExactly` | crates/core/src/glob.rs:236-239 | `**/` and a text select the text and every path that ends with it behind a separator, and nothing else |
| `GlobMeaning.InnerRecursionSelectsExactly` | crates/core/src/glob.rs:236-239 | a recursion between two texts takes exactly one separator, or anything between two |
| `GlobPaths.WriteLiteralText` | crates/core/src/glob.rs:220-235 | the loop writes the path with every sign of the glob syntax escaped |
| `GlobPaths.ReadExactPath` | crates/core/src/glob.rs:42-60 | the loop reads back what the escapes stand for |
| `GlobPaths.ExactPathIsExact` | crates/core/src/glob.rs:42-60 | a glob reads as a path if and only if it is that path's characters one by one, each as itself where it is no syntax, behind a backslash, or alone in brackets |
| `GlobPaths.ExactReadsBack` | crates/core/src/glob.rs:36-60 | the exact glob of a path reads back as that path, whatever the path holds |
| `GlobPaths.ExactSelectsOnly` | crates/core/src/glob.rs:36-41 | the exact glob of a path selects that path and no other |
| `GlobPaths.WholeTreeExactly` | crates/core/src/glob.rs:80-94 | a glob is recognised as the whole tree of a directory if and only if its text is the directory and `/**`, or that and `/*`, the directory not empty and free of syntax |
| `GlobPaths.WholeTreeIsExact` | crates/core/src/glob.rs:80-94 | such a glob selects exactly the paths under that directory |
| `GlobPaths.UnderSelectsTree` | crates/core/src/glob.rs:64-73 | the glob built for a directory selects exactly the paths under it, whatever its name holds |
| `Protection.ReachedBy` | crates/core/src/protected.rs:227-235 | none if and only if no entry might overlap; a reason nobody may grant if and only if an overlapping entry has one |
| `Protection.ReachedByFirst` | crates/core/src/protected.rs:227-235 | of the reasons nobody may grant that reach a glob, the first in the set's order is given |
| `Protection.LeastReason` | crates/core/src/protected.rs:237-251 | none if and only if no entry holds the path; otherwise the first reason in order among those that do |
| `Protection.FirstReasonIsNamed` | crates/core/src/protected.rs:237-251 | a path held for several reasons is named for a deny first, then agents' configuration, an instruction file, an approved test, and the register last |
| `Protection.UnreachedIsUnprotected` | crates/core/src/protected.rs:227-251 | a glob that selects a file an entry selects is reached, and by a reason nobody may grant when the entry has one |
| `Protection.ToldAreGranted` | crates/core/src/protected.rs:253-269 | a session is told of a grant if and only if the grants built and the glob might reach an instruction file |
| `Protection.LiftedFilesAreTold` | crates/core/src/protected.rs:253-279 | every file whose reason a lift changes is selected by a grant the session is told of, missed pairs apart |
| `Expansion.Reaching` | crates/core/src/expansion.rs:361-372 | exactly the reached paths, each with the reason that reaches it |
| `Expansion.ReachingKeepsOrder` | crates/core/src/expansion.rs:361-372 | in the request's own order, path by path |
| `Expansion.EngineGrantsExactly` | crates/core/src/expansion.rs:220-330 | the engine grants if and only if no path reaches a protection, the mode and the criterion accept, nothing a batch holds is reached and file bound and cap have room; then it grants the request whole, in the name of the rule or the evidence |
| `Expansion.UngrantableIsDenied` | crates/core/src/expansion.rs:220-245 | the engine denies for protection if and only if some path reaches a reason nobody may grant, whatever the mode, the criterion, the batch and the counts say |
| `Expansion.CriterionDeniesExactly` | crates/core/src/expansion.rs:220-276 | the engine denies for a criterion that passed, or could not run, if and only if it did and no path is forbidden, whatever the mode |
| `Expansion.ModeAnswersExactly` | crates/core/src/expansion.rs:278-305 | with no forbidden path and a criterion that settles nothing: denied for the mode if and only if it denies all; left to a person for instruction files if and only if a path is held; left to a person for the mode if and only if it asks, a session asked and nothing is held; denied for want of a criterion if and only if the rules hold and none was proposed |
| `Expansion.LimitsAnswerExactly` | crates/core/src/expansion.rs:235-330 | what the mode leaves open waits for a person if and only if a path might overlap what the batch holds; is denied as too wide if and only if it shares nothing and touches more files than the bound; and waits for the spent cap if and only if neither holds and the cap is reached, with the numbers it is told |
| `Expansion.NoOtherAnswer` | crates/core/src/expansion.rs:220-330 | there is no other answer, and each one names every path that was asked for |
| `Expansion.GrantSharesNothingWithBatch` | crates/core/src/expansion.rs:235-240 | no glob of an engine grant selects a file that a scope of the batch selects, missed pairs apart |
| `Expansion.PersonGrantsExactly` | crates/engine/src/reserved.rs:16-35 | a person's answer grants if and only if it is yes, a path is left and none reaches a reason nobody may grant; every other answer denies |
| `Expansion.PersonIsDeniedExactly` | crates/engine/src/reserved.rs:16-35 | denied as chosen, with the option and its words, if and only if it is not the grant; for protection if and only if a path is forbidden; for nothing left if and only if no path is |
| `Expansion.OfferIsExact` | crates/core/src/expansion.rs:339-358 | an offer is refused as not widenable, for protection or as empty, or is all of what was asked for, each if and only if |
| `Expansion.EngineGrantsNothingProtected` | crates/core/src/expansion.rs:220-330 | no glob of an engine grant selects a file that a protection it is no missed pair with selects |
| `Expansion.PersonGrantsOnlyInstructions` | crates/engine/src/reserved.rs:16-35 | what a person grants selects a protected file only where a person may grant it, or where the two globs are a missed pair |
| `Expansion.NobodyGrantsTheUngrantable` | crates/core/src/expansion.rs:220-358 | from the request through the engine to a person's answer, no grant selects a file held by a reason nobody may grant, and one that touches protection at all was a person's, missed pairs apart |
| `BuiltSets.BuiltHoldsExactly` | crates/core/src/protected.rs:174-204 | the union holds exactly the project's denies, the approved tests and the fixed names, each for its reason, the roots held on the way |
| `BuiltSets.ConfigIsHeld` | crates/core/src/protected.rs:172-204 | every run holds `.claude/**`, `.mcp.json`, `.codex/**` and `.agents/skills/**` as agents' configuration |
| `BuiltSets.InstructionsAndRegisterAreHeld` | crates/core/src/protected.rs:178-197 | every run holds both instruction files of any directory, which a person may grant, and `.git` and all in it as the register |
| `BuiltSets.RootsAreHeld` | crates/core/src/protected.rs:198-200 | every run holds the roots of those trees, and the directory above one, as themselves |
| `BuiltSets.DenyIsNamedFirst` | crates/core/src/protected.rs:178-235 | a request is told of a project's deny if and only if it might meet one, whatever else it meets |
| `BuiltSets.BuiltIsBuilt` | crates/core/src/protected.rs:170-202 | such a set holds, beside denies and tests, only names that start with a dot and the instruction files |
| `BuiltSets.BuiltSetsMissNothing` | crates/core/src/protected.rs:178-204 | in a set that holds the agents' tree and no entry of recursions alone, a request that is not refused whole has no pair the overlap test misses |
| `BuiltSets.EveryRequestIsSafe` | crates/core/src/expansion.rs:220-358 | with such a set, every request whatever it names, followed to its end, is never granted over a file held by a reason nobody may grant |
| `BuiltSets.UnsafeHasOpening` | crates/core/src/expansion.rs:220-358 | whatever its globs are, a set with the agents' tree is open to some request, followed to its end, if and only if a reason nobody may grant holds recursions alone and some text, star and text is reached by none of those reasons |
| `BuiltSets.UnsafeExactly` | crates/core/src/expansion.rs:220-358 | where some plain sign is used by no glob of the set, that is if and only if recursions alone are held and no glob without prefix and suffix is |
| `BuiltSets.RunUnsafeExactly` | crates/core/src/protected.rs:178-202 | likewise the set a run starts from is open if and only if the project's denies or the approved tests hold recursions alone and no glob without prefix and suffix |
| `BuiltSets.BreachNeedsRecursion` | crates/core/src/expansion.rs:220-358 | one half of that without any condition on the signs the globs use |
| `BuiltSets.RecursionDenyIsMissed` | crates/core/src/expansion.rs:220-330 | in a run whose only deny is recursions alone the engine grants every acceptable request for a text, star and text that no fixed name meets, over files that are all denied |
| `BuiltSets.RecursionDenyExample` | crates/core/src/expansion.rs:220-330 | the request for the Rust files of `src` with a red criterion is granted in a run that denies `**/` |
| `Expansion.LiftingIsExact` | crates/core/src/protected.rs:237-279 | lifting changes no file the grants do not select, and frees one they select if and only if no reason nobody may grant holds it |
| `BuiltSets.LiftedOfferIsFree` | crates/core/src/protected.rs:237-279 | over a set with the agents' tree and no entry of recursions alone, every file of an accepted offer has no reason left once it is lifted, and every other file keeps the reason it had |
| `Expansion.UnbuiltGrantsLiftNothing` | crates/core/src/protected.rs:271-279 | grants that do not build change no file's reason |
| `Expansion.StandingRefusalExactly` | crates/engine/src/scope_expansion.rs:179-199 | a refusal stands for protection, with every held path named, if and only if a path is forbidden, and for the mode if and only if none is and the mode denies all |
| `Expansion.StandingRefusalStands` | crates/engine/src/scope_expansion.rs:174-199 | a standing refusal is denied again for every pre-check, touched count and grant count; the denial is the same if and only if protection refuses or the criterion neither passed nor failed to run |
| `Expansion.StandingRefusalExample` | crates/engine/src/scope_expansion.rs:174-199 | under a mode that denies all, a request whose criterion passes is refused for the mode and then judged for the criterion |
| `Expansion.GrantWindow.SettleAll` | crates/engine/src/scope_expansion.rs:114-149 | members let in one at a time, in whatever order, decide as the batch function says |
| `Expansion.CapHolds` | crates/engine/src/scope_expansion.rs:114-149 | over any order of members the count is the seed and one for each grant as far as 32 bits hold it; under a cap nothing wraps and it never passes the larger of seed and cap |
| `Fence.LexicalAbsolute` | crates/core/src/fence.rs:301-318 | the loop over components computes where walking the path from the base ends |
| `Fence.LexicalIsNormalForm` | crates/core/src/fence.rs:301-318 | the result holds no `.` and no `..`, and resolving it again changes nothing |
| `Fence.SpellingsResolveAlikeExactly` | crates/core/src/fence.rs:301-318 | two spellings resolve to one path if and only if taking out detours, any number of them one after another, brings both to one spelling |
| `Fence.SpellingsAreJudgedAlike` | crates/core/src/fence.rs:127-185 | such spellings get one verdict |
| `Fence.OutsideIsJudgedByRoots` | crates/core/src/fence.rs:127-168 | a target that resolves outside the checkout is allowed if and only if a root is above it or is it |
| `Fence.InsideIsJudgedExactly` | crates/core/src/fence.rs:127-186 | a target inside is allowed if and only if no reason of the set holds it, it is not the register, and a root covers it or the session writes its checkout and the scope names it or there is none |
| `Fence.RefusalSays` | crates/core/src/fence.rs:127-186 | a refusal names the resolved target, the roots, the ceiling in force and what protects the path, the set's reason before the register |
| `Fence.RegisterExactly` | crates/core/src/protected.rs:394-401 | a path is the register if and only if its first name, any `.` before it passed over, is `.git` |
| `Fence.Violations` | crates/engine/src/scope.rs:122-135 | the changed paths that are not staged and that the scope does not select |
| `Fence.ViolationsKeepOrder` | crates/engine/src/scope.rs:122-135 | in the order of the diff, path by path |
| `Fence.TrespassesAreProtected` | crates/core/src/protected.rs:281-307 | a path is denied for a reason if and only if it changed, no staged mount is above it, that reason holds it and, at a loop's close, an entry beside the approved tests selects it |
| `Fence.Trespasses` | crates/core/src/protected.rs:281-307 | the list of those, each path with its reason |
| `Fence.Record` | crates/engine/src/scope.rs:163-180 | the loop adds each trespass once to the violations and keeps path and reason of all of them |
| `Fence.AuditTree` | crates/engine/src/scope.rs:154-181 | the three lists of an audit as functions of the diff, the scope, the protected set and the staged paths |
| `Fence.AuditReportsExactly` | crates/engine/src/scope.rs:154-181 | at either closing a changed path is reported if and only if no staged mount is above it or is it, and either no glob of the scope selects it or a reason holds it, which a loop's close asks an entry beside the approved tests for |
| `Fence.AuditReportsOnce` | crates/engine/src/scope.rs:154-181 | no path is reported twice, however many reasons there are |
| `Fence.LoopCloseLeavesOnlyTests` | crates/core/src/protected.rs:66-71 | a loop's close reports every protected path whose reason is not an approved test |
| `Fence.LoopCloseReportsTestExactly` | crates/core/src/protected.rs:66-71 | it reports an approved test if and only if the register or a lifted instruction file selects it too |
| `Fence.AllowedIsNoTrespass` | crates/core/src/fence.rs:127-185 | a write the fence allows under the checkout is no trespass at any closing, whatever the roots |
| `Fence.AllowedViolatesExactly` | crates/core/src/fence.rs:127-185 | an allowed write violates the scope if and only if a writable root covers it and the scope does not |
| `Fence.OutsideRootsCoverNothing` | crates/core/src/fence.rs:127-168 | roots outside the checkout cover no path under it |
| `Fence.FencedWorkClosesClean` | crates/core/src/fence.rs:127-185 | with every root outside the checkout, a diff made of allowed writes has no violation and no trespass |
| `Fence.FenceAgreesWithAudit` | crates/core/src/fence.rs:127-185 | for a session that writes its checkout, with roots outside it, a changed path is allowed if and only if the audit of the same scope does not report it and it is not in the register |
| `Fence.FenceAndAuditReadOneScope` | crates/engine/src/scope.rs:247-262 | the fence of a session admits the very scope its close is audited against |
| `Fence.SessionMayWriteItsScope` | crates/engine/src/scope.rs:236-262 | no audit is owed if and only if the node may write and declares no scope; the scope in force selects nothing for a read-only node and otherwise exactly what the declared scope or a grant selects |
| `Fence.FirstInside` | crates/core/src/confinement.rs:157-159 | none if and only if no shared directory lies in the checkout, and otherwise the first that does |
| `Fence.RootsAreRefusedExactly` | crates/core/src/confinement.rs:140-160 | a session is refused if and only if its commands are unconfined and its network closed, or for the first shared directory in its checkout |
| `Fence.RootsAreGiven` | crates/core/src/confinement.rs:160-163 | otherwise its roots are exactly the artifact directory and, unless it only reads, the shared ones |
| `Fence.BuiltRootsAreOutside` | crates/core/src/confinement.rs:140-175 | the roots built lie outside the checkout if and only if none given stands above it and the artifact directory is not inside |
| `Fence.RootAboveOpensCheckout` | crates/core/src/confinement.rs:157-163 | a root above the checkout admits every unprotected path of it, whatever the scope |
| `Sandbox.CommandSparesProtectedTrees` | crates/core/src/confinement.rs:200-242 | for every entry whose text is a plain directory and `/**`, or that and `/*`, a confined command writes no path below that directory, whatever else is granted |
| `Sandbox.CommandSparesAgentTree` | crates/core/src/confinement.rs:200-242 | in every run a confined command writes nothing below `.claude` |
| `Sandbox.CommandWritesExactly` | crates/core/src/confinement.rs:196-242 | a command writes a target if and only if it is unconfined, or no whole tree read off the globs' texts and no register covers it and the checkout, where that is written, a root or a temporary directory does |
| `Sandbox.ComponentsCompose` | crates/core/src/confinement.rs:226-232 | a text below a text names its components below those, an empty name or a `.` nothing and a `..` what is above |
| `Sandbox.PlainTreeCoversExactly` | crates/core/src/confinement.rs:226-242 | a tree whose text is written as a path is names exactly the paths its glob selects and its own directory |
| `Sandbox.TextAbove` | crates/core/src/confinement.rs:226-232 | a text that stops before a separator of a path's text is the text of a directory above the path |
| `Sandbox.AuditCatchesTheRest` | crates/engine/src/scope.rs:154-181 | every protected path that is changed and not staged is a trespass with its reason |
| `Permissions.MatchesIsSplits` | crates/engine/src/permissions.rs:60-94 | matching is the existence of a split of the text, each star taking any run |
| `Permissions.LastStarSuffices` | crates/engine/src/permissions.rs:67-94 | once a second star is met, no other run of the first needs to be tried |
| `Permissions.MismatchMovesStar` | crates/engine/src/permissions.rs:67-94 | a mismatch rules out exactly the run the last star stands at |
| `Permissions.GlobMatch` | crates/engine/src/permissions.rs:67-94 | the loop ends and answers true if and only if the text matches |
| `Permissions.CommandViolation` | crates/engine/src/permissions.rs:30-58 | nothing is refused where nothing governs; otherwise a command is let through if and only if no deny matches and allow is empty or matches, and a refusal names the first deny that does |
| `CycleSearch.FindCycle` | crates/core/src/graph.rs:23-39 | what is returned is a simple closed walk along declared edges, and nothing is returned if and only if the graph is acyclic, with a topological order to show it |
| `CycleSearch.Walk.Visit` | crates/core/src/graph.rs:41-74 | a visit paints its id and all it reaches black, keeping the stack and the order of what is finished, or closes a simple cycle |
| `CycleSearch.Walk.GrayClosesCycle` | crates/core/src/graph.rs:55-64 | the stack from a gray id on, closed by that id, is a simple cycle of the graph |
| `CycleSearch.OrderedIsAcyclic` | crates/core/src/graph.rs:23-39 | a graph with a topological order has no closed walk |
| `Modes.EffectiveIsExact` | crates/engine/src/modes.rs:96-125 | a node's list holds, without duplicates, exactly the kept nodes reached through excluded ones only |
| `Modes.ContractionKeepsOrder` | crates/engine/src/modes.rs:82-125 | between kept nodes, one reaches another after the contraction if and only if it did before |
| `Modes.UnnarrowedIsVerbatim` | crates/engine/src/modes.rs:72-94 | with no narrowing each list is its first occurrences, and verbatim if and only if it repeats nothing |
| `Modes.RepeatIsNotVerbatim` | crates/engine/src/modes.rs:72-94 | a list that names one node twice comes back with one entry |
| `Modes.PushUniqueEach` | crates/engine/src/modes.rs:127-131 | appends, in order, what the list does not hold yet |
| `Modes.PushAllMembers` | crates/engine/src/modes.rs:127-131 | the members of both lists, and no duplicate where there was none |
| `Modes.Contraction.EffectiveDependencies` | crates/engine/src/modes.rs:96-125 | the memoised walk ends on every graph, and on an ordered one gives the answer without a memo |
| `Modes.DependenciesInMode` | crates/engine/src/modes.rs:82-94 | one entry for each kept node, each the contraction's answer on an acyclic workflow |
| `Modes.LastDeclaredIsNode` | crates/engine/src/modes.rs:86 | of the nodes that share an id the last one declared is the node |
| `Lock.DeadIsGone` | crates/engine/src/lock.rs:354-375 | over every history of the process table, a record stamped with a process's start reads as dead if and only if that very process is gone, however often its pid was reused |
| `Lock.HolderIsDeadExactly` | crates/engine/src/lock.rs:341-375 | a holder is dead if and only if the table is sure of its pid and nothing runs under it or what runs is known to have started later; a record is stamped by the table and by the clock where that is silent |
| `Lock.CleanStepKeepsInv` | crates/engine/src/lock.rs:146-231 | every step of creating, reading the record, asking whether its process runs, asking when it started, removing, releasing, handing over and crashing keeps the invariant, unless it removes as stale the file of a running process |
| `Lock.TwoQuestionsReadTheHolder` | crates/engine/src/lock.rs:367-375 | the two questions, when nothing happens between them, find a holder gone exactly where its state reads as dead |
| `Lock.TurnIsDecided` | crates/engine/src/lock.rs:165-231 | one turn of the loop: a free lock is taken; a gone holder's file goes and the turn starts again, or is kept and the caller turned away; a present, unknown or unreadable holder keeps its file, a caller that waits tries again and any other is refused; nobody else moves |
| `Lock.ReleaseIsExact` | crates/engine/src/lock.rs:315-340 | letting go removes the file if and only if it names the holder that lets go |
| `Lock.CrashLeavesFile` | crates/engine/src/lock.rs:146-231 | a process that ends, or stops waiting, leaves the file as it is |
| `Lock.UncleanStepBreaksExclusion` | crates/engine/src/lock.rs:202-213 | that one removal leaves a running holder the file does not name |
| `Lock.ExclusionExactly` | crates/engine/src/lock.rs:146-231 | over every run, at each step whoever believes it holds the lock is named by the file, if and only if no such removal happened |
| `Lock.UndisturbedExcludes` | crates/engine/src/lock.rs:177-231 | where nobody removes the file or hands it over while another process stands between reading its record and removing it, every run is exclusive throughout |
| `Lock.LoneReaderRemovesAnothers` | crates/engine/src/lock.rs:202-213 | one reader at a time is not enough: a run from an empty host in which never two processes stand between read and removal is not exclusive |
| `Lock.InitialIsInv` | crates/engine/src/lock.rs:177-231 | a host with no process running and any file left behind meets the invariant the runs start from |
| `Lock.TwoStealersBothHold` | crates/engine/src/lock.rs:202-213 | two stealers of one dead holder have a run, from a world that starts clean, that is not exclusive |
| `Ordering.SortIsOrderFree` | crates/core/src/manifest.rs:323-351 | listings of the same members sort to one sequence |
| `JsonReader.CanonicalReadsBack` | crates/core/src/manifest.rs:312-351 | a reader of RFC 8259 texts, kept apart from the writer, reads every rendering back as its value up to the order of object keys, and leaves what follows it |
| `JsonReader.KeysReadAscending` | crates/core/src/manifest.rs:312-338 | it finds the keys of every object in ascending order of their texts |
| `JsonReader.EscapeIsShortest` | crates/core/src/manifest.rs:333-349 | of all texts that read as a character, its escape is no longer than any, and its digits are lower case |
| `JsonReader.CanonicalIsUnambiguous` | crates/core/src/manifest.rs:312-351 | two values render to one text if and only if they are equal up to the order of object keys |
| `JsonReader.RenderUnique` | crates/core/src/manifest.rs:323-351 | a rendering followed by a delimiter is read back one way only, and so is what follows it |
| `CanonicalJson.SameRenderAlike` | crates/core/src/manifest.rs:312-351 | values that differ only in key order render to one text |
| `JsonReader.QuotedReadsBack` | crates/core/src/manifest.rs:323-351 | a string leaf, whatever it holds and whatever follows, ends where its closing quote is and reads back as its string |
| `CanonicalJson.Writer.WriteCanonical` | crates/core/src/manifest.rs:323-351 | the recursive writer appends exactly the canonical text to its buffer |
| `CanonicalJson.Writer.WriteObject` | crates/core/src/manifest.rs:325-338 | an object's fields are appended in sorted key order, whatever order its map gave |
| `CanonicalJson.Writer.WriteArray` | crates/core/src/manifest.rs:339-348 | an array's items are appended in order |
| `TreeDigest.DigestIsUnambiguous` | crates/cli/src/pack.rs:187-212 | two trees give one digest text if and only if they map the same paths to the same hashes, newlines in names included, however each was listed |
| `TreeDigest.WriteDigestInput` | crates/cli/src/pack.rs:191-212 | the loop over the sorted files fills the buffer with the digest's text |
| `TreeDigest.PathTextUnique` | crates/cli/src/pack.rs:200-207 | a path is read back from its text |
| `TreeDigest.OrdersPartExactly` | crates/cli/src/pack.rs:187-192 | two paths stand one way in the order used and not so as texts if and only if, at the first names that differ, one name goes on into the other, its path goes on below it, and the other's next sign is before a separator |
| `TreeDigest.PathOrderIsNotTextOrder` | crates/cli/src/pack.rs:187-192 | `a/b` and `a-b` are such paths |
| `ShellWords.Words` | crates/core/src/shell.rs:31-64 | one pass over the command computes its words |
| `ShellWords.SpellingReadsBack` | crates/core/src/shell.rs:26-64 | a line spelled by plain, escaped, single-quoted and double-quoted pieces, blanks between, reads as the words the pieces stand for |
| `ShellWords.SplitsAtExactly` | crates/core/src/shell.rs:38 | two texts with a sign between them are two words if and only if the sign is a space, a tab or a newline |
| `ShellWords.ClosedIsSpelled` | crates/core/src/shell.rs:26-64 | every command that closes its quotes has such a spelling, and reads as what it spells |
| `ShellWords.PiecesSpell` | crates/adapters/src/session.rs:114-123 | a quoted part is a sound word of the shell that stands for the part |
| `ShellWords.QuotingReadsBack` | crates/adapters/src/session.rs:114-123 | for every list of strings, the words of their quoted forms joined by spaces are the list |
| `ShellWords.UnquotedHoldsNothingSpecial` | crates/adapters/src/session.rs:110-123 | a part left unquoted holds none of the signs a shell reads; every other stands in single quotes |
| `ShellWords.JoinedLinesReadExactly` | crates/core/src/shell.rs:48-58 | a command reads as it would with each newline behind a `\` taken out, single quotes aside, if and only if there is none |
| `ShellWords.JoinedExample` | crates/core/src/shell.rs:48 | a word joined over two lines is read with a newline in it |
| `ShellOutput.OutputFiles` | crates/core/src/shell.rs:70-96 | one pass over the command computes the files its redirections name |
| `ShellOutput.QuotedNamesNoFile` | crates/core/src/shell.rs:66-96 | a command line of quoted parts names no file, whatever the parts hold |
| `ShellRedirections.RedirectionsAreReadExactly` | crates/core/src/shell.rs:66-102 | over any number of redirections, glued or not, with words, streams and numbers between them: the files found are the spelled ones if and only if each redirection that names a file has a blank or the end after its target and no white space in the word that touches its mark before digits of another stream |
| `ShellRedirections.FileIsReadExactly` | crates/core/src/shell.rs:82-91 | at one mark, its target followed by a blank, the end or any operator, the file found is the spelled one under exactly that condition, and never is a file found where none is spelled |
| `ShellRedirections.TargetIsReadExactly` | crates/core/src/shell.rs:85-89 | the first word read after a mark is the spelled target if and only if a blank or the end follows it |
| `ShellRedirections.NumberBeforeMark` | crates/core/src/shell.rs:98-102 | the stream found before a mark is the digits that end the word touching it, where that word is digits alone or has white space right before them |
| `ShellRedirections.NumberIsReadExactly` | crates/core/src/shell.rs:98-102 | that is the spelled number, a word of digits touching the mark, if and only if no escaped or unusual white space stands in the word before its last digits |
| `ShellRedirections.MisledTargetIsDropped` | crates/core/src/shell.rs:82-102 | words whose last has such white space name no file after the mark it touches, where one is spelled |
| `ShellRedirections.MisledExample` | crates/core/src/shell.rs:98-102 | `x\ 2>f`, one word and a mark, names no file |
| `ShellRedirections.GluedTargetIsMisread` | crates/core/src/shell.rs:66-96 | of two redirections glued together the files found are not the two spelled, and the first found is both names with the mark between |
| `ShellScanner.Scanner.Run` | crates/core/src/shell.rs:148-156 | the scanner's loop hands back the commands its characters leave |
| `ShellScanner.Scanner.Heredoc` | crates/core/src/shell.rs:253-278 | the mark, its dash, its spaces and its word are taken, and the delimiter noted without quotes |
| `ShellScanner.Scanner.SkipHeredocBodies` | crates/core/src/shell.rs:281-292 | every body of the line is passed over up to its delimiter or the end |
| `ShellScanner.ReadPipelines` | crates/core/src/shell.rs:14-18 | the scan of a script that does not split at `\|` |
| `ShellScanner.ReadSimpleCommands` | crates/core/src/shell.rs:20-24 | the scan of a script that does |
| `ShellCommands.CommandsAreTrimmed` | crates/core/src/shell.rs:295-301 | over every script, each command is trimmed and none is empty |
| `ShellCommands.CommandsInventNothing` | crates/core/src/shell.rs:148-302 | over every script, the commands put together are the script with characters left out: nothing invented, the order kept |
| `ShellLines.ThroughMarked` | crates/core/src/shell.rs:159-193 | from any reading outside quotes, an escape, a single-quoted or a double-quoted text is taken into the command whole and changes nothing else |
| `ShellParts.EveryScriptHasParts` | crates/core/src/shell.rs:148-302 | every script is a list of parts (signs that stand for themselves, escapes, quotes, joined lines, substitutions, comments, here-strings, heredocs with their bodies, separators, and what it leaves open at its end), and its commands are exactly what the parts between two separators say, trimmed |
| `ShellParts.ScriptIsCutAtItsSeparators` | crates/core/src/shell.rs:148-302 | for any such parts, each standing where it may: the script is cut at the parts that separate and nowhere else |
| `ShellParts.SeparatorsSeparate` | crates/core/src/shell.rs:178-249 | lines of any such parts, redirections, quotes and substitutions among them, chained by separators, split at those separators and nowhere else |
| `ShellParts.RedirectionsSeparateNothing` | crates/core/src/shell.rs:236 | quiet lines with any number of `>&`, `<&` and `&>` in them, chained by separators, split at those separators alone |
| `ShellParts.StreamIsOneCommand` | crates/core/src/shell.rs:236 | for all quiet text before, between and after, a script with one `>&` or `<&` in it is exactly one command under either split |
| `ShellParts.BothIsOneCommand` | crates/core/src/shell.rs:236 | and so is one with `&>` |
| `ShellParts.AmpersandRedirects` | crates/core/src/shell.rs:236 | from any reading outside quotes and substitutions, an `&` behind an angle, or before a `>`, is taken into the command |
| `ShellEscapes.BackgroundSeparatesExactly` | crates/core/src/shell.rs:236-237 | an `&` between two quiet lines separates them if and only if the first does not end in an angle, escaped or bare |
| `ShellEscapes.EscapedAngleHidesBackground` | crates/core/src/shell.rs:236 | every word that ends in an escaped angle hides the `&` behind it: one command comes back where the shell has two |
| `ShellEscapes.HashIsKeptExactly` | crates/core/src/shell.rs:212-219 | a `#` behind a quiet line is kept if and only if the line is not empty and does not end in white space, escaped or not |
| `ShellEscapes.EscapedBlankOpensComment` | crates/core/src/shell.rs:212-219 | every word with an escaped blank before a `#` loses what is behind the blank |
| `ShellLines.QuotedIsOneCommand` | crates/core/src/shell.rs:148-249 | a command line of quoted parts is exactly one pipeline and one simple command, that line |
| `ShellLines.QuotedLinesSeparate` | crates/core/src/shell.rs:148-249 | quoted command lines chained by any separators come back as those lines, in order |
| `ShellScripts.ScanWith` | crates/core/src/shell.rs:148-302 | from any reading, the commands found before stay as they are and change nothing that is found after |
| `ShellScripts.FirstCommandSplitsOff` | crates/core/src/shell.rs:226-249 | a quiet line and a separator are one command, and the commands of any script after it are that script's own |
| `ShellScripts.CommentSaysNothing` | crates/core/src/shell.rs:212-219 | a comment, whatever it holds, ends with its line and adds no command, whatever script follows |
| `ShellScripts.HeredocBodiesSayNothing` | crates/core/src/shell.rs:251-292 | the bodies of a line's heredocs, however many and whatever their lines hold, separate nothing and add no command: the line with its marks, dashes, spaces and what follows them is one command, and the script goes on after the last delimiter |
| `ShellScripts.ThroughOpenings` | crates/core/src/shell.rs:251-278 | a line with heredocs in it is read through, and their delimiters are noted in order without quotes |
| `ShellScripts.UnmarkedDropsQuotes` | crates/core/src/shell.rs:274 | a delimiter is its word without quotes and backslashes, every other sign in its place |
| `ShellScripts.SubstitutionSeparatesNothing` | crates/core/src/shell.rs:178-211 | from any reading outside quotes, `$(` up to its matching `)` is taken into the command as it stands, with every separator, comment, heredoc mark, quote, escape and backquote in it, joined lines made one |
| `ShellLines.PipelineIsCutAtBoth` | crates/core/src/shell.rs:237-247 | asked for pipelines, any number of quiet commands joined by `\|` and `\|&` are cut after the `\|` of each `\|&` and nowhere else |
| `ShellLines.PipelineIsWholeExactly` | crates/core/src/shell.rs:237-247 | a pipeline comes back whole if and only if none of its joints is a `\|&` |
| `ShellLines.PipeBothCutsPipeline` | crates/core/src/shell.rs:237-247 | two commands joined by `\|&` come back as the first with its `\|` and the second alone |
| `ShellTrimming.TrimmingKeepsWordsExactly` | crates/core/src/shell.rs:295-301 | a command trimmed as it is handed back keeps its words if and only if no white space of a word, escaped or unusual, stands at its ends |
| `ShellTrimming.TrimmedExample` | crates/core/src/shell.rs:295-301 | `a\ ` comes back without its blank and reads as another word |
| `Mounts.Mounts.MakeDirs` | crates/adapters/src/mount.rs:108-121 | makes and records only missing directories above the link, each in one that stands, and all of them unless the host refuses |
| `Mounts.Mounts.PutLink` | crates/adapters/src/mount.rs:65-92 | a stale link is replaced, anything else there is refused and left, no other path changes |
| `Mounts.Mounts.Install` | crates/adapters/src/mount.rs:56-95 | every link or none: after a failure at any step nothing but stale links is lost, and nothing made is left unless the undo was refused; it succeeds where nothing but links and directories stand in the way |
| `Mounts.Mounts.Release` | crates/adapters/src/mount.rs:126-138 | only made paths go, no file goes, every path left still stands in its directory whoever else wrote; with no other writer and no error the base is back |
| `Mounts.Mounts.TakeBack` | crates/adapters/src/mount.rs:160-173 | a link or an empty directory goes, anything else stays |
| `Mounts.Mounts.InstallThenRelease` | crates/adapters/src/mount.rs:56-138 | with no other writer the tree ends as it was without the stale links |
| `Mounts.TakingBackKeepsLayers` | crates/adapters/src/mount.rs:126-138 | the newest path made is a link or an empty directory, and taking it back leaves the layers of the others |
| `Vendor.Disk.VendorTree` | crates/cli/src/pack.rs:260-275 | copies the files into the staging directory, or stops with part of them there and nothing else touched |
| `Vendor.Disk.VendorIntoPlace` | crates/cli/src/pack.rs:371-430 | the destination is at every step the old tree, absent or wholly new; success, error and failed cleanup each leave what they promise, and an error that leaves the staging directory says so; with no refusal it succeeds if and only if there is a file to copy |
| `Vendor.Disk.SwapIn` | crates/cli/src/pack.rs:400-430 | the old tree aside, the new one in place, or what a failure of either rename leaves |
| `Vendor.Disk.PlaceStaged` | crates/cli/src/pack.rs:412-429 | the staged tree onto the free destination; a tree set aside comes back when that fails, or the error says it did not |
| `Vendor.Disk.Undo` | crates/cli/src/pack.rs:309-321 | the new tree goes and the replaced one comes back |
| `Vendor.Disk.Commit` | crates/cli/src/pack.rs:323-334 | what was set aside goes unless the host refuses, and no other tree is touched |
| `Vendor.Disk.Aside` | crates/cli/src/pack.rs:349-368 | the destination is moved aside whole, or nothing happens |
| `Vendor.Disk.VendorThenUndo` | crates/cli/src/pack.rs:300-430 | undoing a successful install restores the disk exactly |
| `Vendor.CopiedIsWhole` | crates/cli/src/pack.rs:260-275 | what was copied file by file is the source tree, in whatever order and however often listed |
| `Wakefulness.GapIsReportedAndUnseen` | crates/engine/src/wakefulness.rs:49-92 | over any readings in any order the true gap is the sleeps reported and the parts not seen, so the reports exceed it if and only if those parts sum to less than nothing |
| `Wakefulness.SleepIsReportedExactly` | crates/engine/src/wakefulness.rs:49-54 | over any readings, one reports a sleep if and only if the wall clock outran the awake clock by 10 s or more since the one before it, and then by exactly how much |
| `Wakefulness.SleepIsAccounted` | crates/engine/src/wakefulness.rs:49-92 | over any readings in order the sleeps reported miss less than 10 s of the true gap for each silent reading, nothing when none is silent, and never exceed it while the wall clock is not set back |
| `Wakefulness.SettledIsAwakeSince` | crates/engine/src/wakefulness.rs:94-101 | over any readings in order the host is settled if and only if it was awake 120 s since every sleep reported |
| `Wakefulness.OutOfOrderCountsTwice` | crates/engine/src/wakefulness.rs:82-92 | right clocks, and a reading taken before a sleep that reaches the watch after it: the sleep, however long, is reported twice, where in order it is reported once |

## Left out

- The globset crate's own code: the syntax, the parser's treatment of `**` and the meaning of each token are declared after globset 0.4.20; building a set is total, except where lifted grants may not build.
- The entries a set grows by for the links of a checkout, and the pathspecs derived from a set.
- BuiltSets.UnsafeExactly: asks for a plain sign that no glob of the set uses, since globs that together use every sign could leave no room for the request that goes past; `BuiltSets.UnsafeHasOpening` asks for none.
- BuiltSets.RunUnsafeExactly: asks for such a sign too.
- Expansion.CapHolds: without a cap the 32-bit count wraps, as the model's does; a build of the source that checks for overflow stops there instead.
- How many touched files a request covers is an input of the decision; the diff behind it and the running of a criterion are not modelled.
- `tree` of a glob, the wording of refusals, the advice of a fence and the merged coverage of two fences.
- GlobPaths.ExactPathIsExact: what a class written by hand selects beside the one path it reads as is not claimed.
- Modes.DependenciesInMode: on a cyclic workflow it states that the walk ends and which nodes have an entry; what the entries hold depends on the order of the visit.
- The waiting between two attempts at the lock, its timeout and the error paths of reading and writing the file; a file that holds no readable record is modelled as naming nobody.
- Lock.UndisturbedExcludes: is enough and not needed; what is needed and enough is `CleanThroughout`, in `Lock.ExclusionExactly`.
- JSON numbers are the texts they print as, and the hash function is not modelled: what is proved is that its input is unambiguous.
- JsonReader.CanonicalReadsBack: its reader takes no white space between signs and no pair of escapes for one character, neither of which a canonical text holds.
- Reading a directory and hashing a file are inputs of the tree digest; errors on the way are not modelled.
- Mounts.Mounts.Install: a link above a mount is never followed, so a directory reached through one is refused as no directory; reading what stands at a path never fails.
- Vendor.Disk.VendorIntoPlace: sub-directories and file modes of the staged tree are not modelled, a tree being its files by path.
- ShellRedirections.RedirectionsAreReadExactly: a target of digits alone with a mark glued to it is not among its commands, since a shell reads those digits as the number of that mark.
- Permissions.GlobMatch: matches characters, where the source matches the bytes of the same text.
- ShellOutput.OutputFiles: positions are counted in characters, where the source counts bytes of the same text.
- Wakefulness.SleepIsAccounted: the waiting loop around the readings and its cancellation are not modelled.
- Replay, statistics, findings, storage, adapters' dialects, forges, network, processes and their signals, and everything a person sees on a terminal.

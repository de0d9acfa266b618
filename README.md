# revanced-patcher: instruction filters and the patch engine, in Dafny

This project models two parts of revanced-patcher. It proves properties of both.

**Instruction filters** (`InstructionFilter.dfy`, module `InstructionFilters`).
A filter is a yes/no test on one bytecode instruction. It sees the enclosing
method and the instruction's index in that method. The variants are:
- single opcode, and opcode set;
- wide literal;
- method call, with defining-class / name / return-type / parameter criteria;
- field access;
- last instruction only;
- logical or (`AnyFilter`), modelled as corrected; the self-recursive call as written is the one row under "## Findings".

Every filter carries the gap budget `maxInstructionsBefore`. It defaults to
`METHOD_MAX_INSTRUCTIONS` (65535). `OpcodeFilter.listOfOpcodes` turns a list of
nullable opcodes into a chain of filters. The first filter may match anywhere.
Each later filter must immediately follow the one before it.

**The patch engine** (`Patcher.dfy`, module `Patching`).
- `plusAssign` records the requested patches. It adds their whole dependency
  closure to `allPatches`. It then infers the resource-decoding mode from
  resource markers found at any depth:
  - `FULL` if any patch is a resource patch;
  - otherwise `RAW_ONLY` if any is a raw-resource patch;
  - otherwise `NONE`.
- `invoke` runs the apply phase. It executes the requested patches in name
  order through the memoised, dependency-first `execute`, and emits one result
  per requested patch.
- `invoke` then runs the finalize phase. It visits the memoised successes
  newest first and emits:
  - a finalize failure, if the finalize block raised;
  - otherwise the success itself, if the patch is named;
  - otherwise nothing.

The model's representation choices:
- Patches are numbered so that every dependency has a smaller number than its
  dependent. This makes the declared graph acyclic by construction.
- The memo `executedPatches`, a `LinkedHashMap`, is the sequence of its entries
  in insertion order.
- A patch's apply and finalize blocks are user code. An oracle says whether each
  block completes or raises.
- The emitted flow is the sequence of results in emission order.

`Wrappers.dfy` holds the `Option` type used by both modules.

## Model

| member | source | states |
|---|---|---|
| InstructionFilters.DefaultGapBudget | src/main/kotlin/app/revanced/patcher/InstructionFilter.kt:16-37 | every filter variant built without an explicit budget gets `METHOD_MAX_INSTRUCTIONS` = 65535 |
| InstructionFilters.ListOfOpcodes | src/main/kotlin/app/revanced/patcher/InstructionFilter.kt:73-89 | one filter per entry, in order: `null` gives an any-opcode `OpcodesFilter`, an opcode gives an `OpcodeFilter`; budget 65535 for the first, 0 for every later one |
| InstructionFilters.OpcodeEntryMatches | src/main/kotlin/app/revanced/patcher/InstructionFilter.kt:78-84 | an entry built by `listOfOpcodes` matches exactly its opcode, or every instruction for `null` |
| InstructionFilters.OpcodeFilterMatches | src/main/kotlin/app/revanced/patcher/InstructionFilter.kt:64-70 | `OpcodeFilter` matches iff the opcodes are equal; the method and the index do not affect the answer |
| InstructionFilters.OpcodesFilterMatches | src/main/kotlin/app/revanced/patcher/InstructionFilter.kt:113-122 | a `null` opcode set accepts every instruction; otherwise it matches iff the opcode is in the set |
| InstructionFilters.LiteralFilterMatches | src/main/kotlin/app/revanced/patcher/InstructionFilter.kt:149-159 | matches iff the opcode check passes and the instruction is a wide literal with the given value; a non-literal instruction never matches |
| InstructionFilters.DefiningClassCriterion | src/main/kotlin/app/revanced/patcher/InstructionFilter.kt:248-260 | the defining-class test passes iff the reference class ends with the string, or the string is `"this"` and the reference class is the enclosing method's class |
| InstructionFilters.ThisSentinelIsExact | src/main/kotlin/app/revanced/patcher/InstructionFilter.kt:252-258 | for a type descriptor ending in `;`, `"this"` accepts exactly the enclosing method's own class |
| InstructionFilters.MethodFilterMatches | src/main/kotlin/app/revanced/patcher/InstructionFilter.kt:236-272 | matches iff the opcode check passes, the instruction references a method and every present criterion holds (class by suffix or `"this"`, exact name, return-type prefix, parameters by `parametersStartsWith`) |
| InstructionFilters.MethodFilterWithoutCriteria | src/main/kotlin/app/revanced/patcher/InstructionFilter.kt:236-272 | with no criteria, every method-reference instruction that passes the opcode check matches |
| InstructionFilters.MethodFilterCriteriaNarrow | src/main/kotlin/app/revanced/patcher/InstructionFilter.kt:248-269 | dropping criteria from a `MethodFilter` can only add matches |
| InstructionFilters.Matches | src/main/kotlin/app/revanced/patcher/InstructionFilter.kt:25-378 | `matches` of every filter variant, dispatched on the variant; its meaning per variant is stated by the `...Matches` lemmas |
| InstructionFilters.DerivedFiltersCheckOpcodesFirst | src/main/kotlin/app/revanced/patcher/InstructionFilter.kt:149-156 | literal, method and field filters call the opcode-set check first: none matches an instruction its opcode set rejects (also lines 236-243 and 329-336) |
| InstructionFilters.OpcodeFilterIsSingletonSet | src/main/kotlin/app/revanced/patcher/InstructionFilter.kt:64-70 | `OpcodeFilter(op)` matches exactly like an opcode-set filter of the set `{op}` |
| InstructionFilters.WiderOpcodeSetMatchesMore | src/main/kotlin/app/revanced/patcher/InstructionFilter.kt:113-122 | giving any filter that carries an opcode set a larger set, or `null`, only adds matches |
| InstructionFilters.FieldFilterMatches | src/main/kotlin/app/revanced/patcher/InstructionFilter.kt:329-359 | matches iff the opcode check passes, the instruction references a field and every present criterion holds (class by suffix or `"this"`, exact name, type prefix) |
| InstructionFilters.FieldFilterCriteriaNarrow | src/main/kotlin/app/revanced/patcher/InstructionFilter.kt:338-356 | dropping criteria from a `FieldFilter` can only add matches |
| InstructionFilters.ThisFilterMatchesOwnClass | src/main/kotlin/app/revanced/patcher/InstructionFilter.kt:252-258 | a method or field filter with only `definingClass = "this"` accepts a reference to a class descriptor (ending in `;`) iff that class is the enclosing method's class |
| InstructionFilters.LastInstructionFilterMatches | src/main/kotlin/app/revanced/patcher/InstructionFilter.kt:370-378 | matches iff the index is the method's last and the wrapped filter matches, so at most one index of a method can match |
| InstructionFilters.AnyFilterAsWritten | src/main/kotlin/app/revanced/patcher/InstructionFilter.kt:47-53 | `AnyFilter.matches` as written, with the stack depth as a parameter: answers `false` for no filters, otherwise calls itself with the same arguments |
| InstructionFilters.AnyFilterNeverAnswers | src/main/kotlin/app/revanced/patcher/InstructionFilter.kt:47-53 | as written, an `AnyFilter` with at least one filter returns no answer at any stack depth; with no filters it answers false |
| InstructionFilters.AnyFilterMatches | src/main/kotlin/app/revanced/patcher/InstructionFilter.kt:39-53 | the corrected `AnyFilter` never matches with no filters, matches like its only filter, and matches on a concatenation iff it matches on one of the parts |
| InstructionFilters.AnyFilterCorrectedAgreesWhenAnswered | src/main/kotlin/app/revanced/patcher/InstructionFilter.kt:47-53 | wherever the as-written `AnyFilter` returns an answer, the corrected filter gives the same answer |
| Patching.AnyRecursively | src/main/kotlin/app/revanced/patcher/Patcher.kt:42-43 | the local `anyRecursively`: the patch carries the marker or one of its dependencies does, recursively; its meaning is stated by `AnyRecursivelyIffReachable` |
| Patching.AnyRecursivelyIffReachable | src/main/kotlin/app/revanced/patcher/Patcher.kt:42-43 | `anyRecursively` holds iff some patch reachable through dependencies carries the marker |
| Patching.ClosureIsDependencyClosed | src/main/kotlin/app/revanced/patcher/Patcher.kt:35-40 | the closure contains the requested patches, stays within the declared patches and has no dependency edge leaving it |
| Patching.ClosureIsLeast | src/main/kotlin/app/revanced/patcher/Patcher.kt:35-40 | the closure is contained in every dependency-closed set that contains the requested patches |
| Patching.ClosureOfOne | src/main/kotlin/app/revanced/patcher/Patcher.kt:36-37 | what `addRecursively` must add for `p` is `p` plus the closure of its dependencies |
| Patching.DeepMarkerCounts | src/main/kotlin/app/revanced/patcher/Patcher.kt:42-54 | a resource marker at any depth below a registered patch forces `FULL`; a raw-resource marker forces at least `RAW_ONLY` |
| Patching.RequiredModeMonotonic | src/main/kotlin/app/revanced/patcher/Patcher.kt:45-54 | registering more patches never lowers the required resource mode |
| Patching.Lookup | src/main/kotlin/app/revanced/patcher/Patcher.kt:67 | a memo lookup finds an entry for the patch if there is one; otherwise no entry carries the patch |
| Patching.ExecuteStep | src/main/kotlin/app/revanced/patcher/Patcher.kt:63-95 | `execute` returns a result for its own patch, only appends to the memo, and a success it returns is in the memo |
| Patching.DependenciesStep | src/main/kotlin/app/revanced/patcher/Patcher.kt:73-83 | the dependency loop only appends to the memo and, on failure, names a dependency at or after the one it started from |
| Patching.LoopStopsAtFailingDependency | src/main/kotlin/app/revanced/patcher/Patcher.kt:73-83 | the loop stops only at a dependency whose own `execute`, on a memo extending the starting one, failed with exactly the reported cause and left exactly the reported memo |
| Patching.ExecuteAddsBelow | src/main/kotlin/app/revanced/patcher/Patcher.kt:63-95 | `execute` of `p` memoises only `p` and patches numbered below it |
| Patching.PassedDependenciesSucceeded | src/main/kotlin/app/revanced/patcher/Patcher.kt:73-83 | the loop stops at the first failing dependency; every dependency before that one (all of them if none failed) is memoised as a success |
| Patching.MemoisedSuccessIsReused | src/main/kotlin/app/revanced/patcher/Patcher.kt:66-68 | a memoised success is returned unchanged and the memo does not change |
| Patching.MemoisedFailureFailsPreviously | src/main/kotlin/app/revanced/patcher/Patcher.kt:67-71 | a memoised failure gives a new "failed previously" result and the memo does not change |
| Patching.DependencyFailureSkipsBody | src/main/kotlin/app/revanced/patcher/Patcher.kt:73-83 | when the loop stops at dependency `k`, `execute` fails with "dependency failed" citing dependency `k` and carrying that dependency's own failure; dependency `k` itself failed; the dependencies before it succeeded; the apply block does not run, the memo is the loop's and the patch is not memoised |
| Patching.BodyResultIsMemoised | src/main/kotlin/app/revanced/patcher/Patcher.kt:85-94 | when all dependencies succeed, the apply block's outcome becomes the result, is memoised last, and every dependency is already memoised as a success |
| Patching.ExecutePreservesMemo | src/main/kotlin/app/revanced/patcher/Patcher.kt:63-95 | `execute` keeps the memo invariant: one entry per patch, each holding its apply outcome, each after its dependencies' successes |
| Patching.DependenciesPreserveMemo | src/main/kotlin/app/revanced/patcher/Patcher.kt:73-83 | the dependency loop keeps the memo invariant |
| Patching.ApplyRun | src/main/kotlin/app/revanced/patcher/Patcher.kt:106-113 | the apply loop over the sorted requested patches: one result per patch and a memo that only grows |
| Patching.ApplyRunExtends | src/main/kotlin/app/revanced/patcher/Patcher.kt:106-113 | one more loop iteration appends the patch's `execute` result to the emitted results and continues from the memo that `execute` left |
| Patching.ApplyRunEmitsEach | src/main/kotlin/app/revanced/patcher/Patcher.kt:104-113 | the apply phase emits one result per requested patch, in visiting order, extends the memo and keeps the memo invariant |
| Patching.ChainRequestingOnlyDependent | src/main/kotlin/app/revanced/patcher/Patcher.kt:63-113 | for A depends on B depends on C, with only C's apply raising, requesting A emits one result, for A, citing B citing C's fault; only C is memoised |
| Patching.ChainRequestingAll | src/main/kotlin/app/revanced/patcher/Patcher.kt:104-113 | requesting all three emits A citing B citing C's fault, then B citing C's "failed previously", then C "failed previously" |
| Patching.Successes | src/main/kotlin/app/revanced/patcher/Patcher.kt:115 | the filtered memo holds exactly the memoised results without an exception |
| Patching.SuccessesKeepOrder | src/main/kotlin/app/revanced/patcher/Patcher.kt:115 | `filter` keeps insertion order: a success stored before another comes before it |
| Patching.FinalizeReverseInsertionOrder | src/main/kotlin/app/revanced/patcher/Patcher.kt:115 | of two memoised successes, the one stored later is finalized first |
| Patching.FinalizeOrderExample | src/main/kotlin/app/revanced/patcher/Patcher.kt:115 | successes X, Z stored around a failure Y are visited as Z, then X, and Y is not visited |
| Patching.FinalizePhaseNewestFirst | src/main/kotlin/app/revanced/patcher/Patcher.kt:115-142 | of two memoised successes that both emit, the one stored later is emitted first: reverse insertion order reaches the emitted flow |
| Patching.FinalizeExampleSuccesses | src/main/kotlin/app/revanced/patcher/Patcher.kt:115 | a memo of three successes is its own list of successes |
| Patching.FinalizeExampleOrder | src/main/kotlin/app/revanced/patcher/Patcher.kt:115 | successes C, B, A stored in that order are visited as A, B, C |
| Patching.FinalizeExampleVisit | src/main/kotlin/app/revanced/patcher/Patcher.kt:115-142 | visiting A, B, C with only B's finalize raising emits A, B's finalize failure, C |
| Patching.FinalizePhaseExample | src/main/kotlin/app/revanced/patcher/Patcher.kt:115-142 | after C, B, A all succeed, with only B's finalize raising, the phase emits A's success, B's finalize failure, C's success |
| Patching.Reversed | src/main/kotlin/app/revanced/patcher/Patcher.kt:115 | `asReversed` gives the same length, with position `k` holding element `n-1-k` |
| Patching.FinalizeOutput | src/main/kotlin/app/revanced/patcher/Patcher.kt:116-141 | the finalize step for one success emits at most one result, and only for that patch |
| Patching.FinalizeVisit | src/main/kotlin/app/revanced/patcher/Patcher.kt:115-142 | the finalize loop emits at most one result per visited patch; its emission order is stated by `FinalizeVisitKeepsOrder` |
| Patching.FinalizeVisitStep | src/main/kotlin/app/revanced/patcher/Patcher.kt:116-141 | one more visited patch appends its finalize output to what was emitted |
| Patching.FinalizeVisitPrefix | src/main/kotlin/app/revanced/patcher/Patcher.kt:115-142 | the loop over a prefix of the visit emits a prefix of the whole output |
| Patching.FinalizeVisitAt | src/main/kotlin/app/revanced/patcher/Patcher.kt:115-142 | a patch's finalize output starts right after everything emitted for the patches visited before it |
| Patching.FinalizeVisitGrows | src/main/kotlin/app/revanced/patcher/Patcher.kt:115-142 | a patch's output comes entirely before the point where a later patch's output starts |
| Patching.FinalizeVisitKeepsOrder | src/main/kotlin/app/revanced/patcher/Patcher.kt:115-142 | results are emitted in visiting order: of two visited patches that both emit, the one visited first is emitted first |
| Patching.FinalizeVisitEmits | src/main/kotlin/app/revanced/patcher/Patcher.kt:115-142 | every visited patch whose finalize raises yields a finalize failure; a completing named patch is emitted unchanged; a completing unnamed one is not emitted; nothing else is emitted |
| Patching.SuccessesUnique | src/main/kotlin/app/revanced/patcher/Patcher.kt:115 | the finalize phase visits each patch at most once |
| Patching.SuccessesDependenciesFirst | src/main/kotlin/app/revanced/patcher/Patcher.kt:115 | among memoised successes, every dependency comes before its dependent |
| Patching.DependentsFinalizedFirst | src/main/kotlin/app/revanced/patcher/Patcher.kt:115-142 | the finalize phase visits a dependent before each of its dependencies |
| Patching.StringLess | src/main/kotlin/app/revanced/patcher/Patcher.kt:106 | `String.compareTo(...) < 0`: lexicographic by character, a proper prefix first; never holds between equal strings |
| Patching.NameLess | src/main/kotlin/app/revanced/patcher/Patcher.kt:106 | `compareValues` on nullable names, `null` first: never holds between equal names, and the larger name is never `null` |
| Patching.StringLessTotal | src/main/kotlin/app/revanced/patcher/Patcher.kt:106 | string comparison is total and asymmetric |
| Patching.StringLessTransitive | src/main/kotlin/app/revanced/patcher/Patcher.kt:106 | string comparison is transitive |
| Patching.RunsBeforeIsStrictTotal | src/main/kotlin/app/revanced/patcher/Patcher.kt:106 | the order by nullable name (null first, equal names by id) is irreflexive, total and transitive |
| Patching.FirstToRunExists | src/main/kotlin/app/revanced/patcher/Patcher.kt:106 | every non-empty set of patches has a first patch in that order |
| Patching.SortedByName | src/main/kotlin/app/revanced/patcher/Patcher.kt:106 | `sortedBy { it.name }` returns each requested patch exactly once, strictly ordered by name |
| Patching.Patcher.constructor | src/main/kotlin/app/revanced/patcher/Patcher.kt:13-23 | a new patcher has nothing requested, an empty closure, mode `NONE` and an empty memo |
| Patching.Patcher.AddRecursively | src/main/kotlin/app/revanced/patcher/Patcher.kt:36-39 | `addRecursively` adds exactly the closure of `p` to `allPatches` |
| Patching.Patcher.AnyPatchMarked | src/main/kotlin/app/revanced/patcher/Patcher.kt:45-50 | returns true iff some patch in the closure of `allPatches` carries the marker |
| Patching.Patcher.AddAllRecursively | src/main/kotlin/app/revanced/patcher/Patcher.kt:35-40 | adds exactly the closure of the requested patches to `allPatches` |
| Patching.Patcher.InferResourceMode | src/main/kotlin/app/revanced/patcher/Patcher.kt:45-54 | sets the mode to `FULL` if any patch in the closure is a resource patch, else `RAW_ONLY` if any is a raw-resource patch, else `NONE` |
| Patching.Patcher.PlusAssign | src/main/kotlin/app/revanced/patcher/Patcher.kt:30-55 | adds the patches to `executablePatches` and their closure to `allPatches` (still dependency-closed), and sets the mode required by `allPatches` |
| Patching.Patcher.Execute | src/main/kotlin/app/revanced/patcher/Patcher.kt:63-95 | the recursive `execute` on the memo field returns the result and leaves the memo that the `ExecuteStep` specification gives |
| Patching.Patcher.ApplyAll | src/main/kotlin/app/revanced/patcher/Patcher.kt:104-113 | the apply loop's results and memo are those of the `ApplyRun` specification |
| Patching.Patcher.FinalizeAll | src/main/kotlin/app/revanced/patcher/Patcher.kt:115-142 | the finalize loop emits what the `FinalizePhase` specification gives for the final memo |
| Patching.Patcher.Invoke | src/main/kotlin/app/revanced/patcher/Patcher.kt:62-143 | a run first emits exactly the requested patches, once each, strictly in name order, with the results of `ApplyRun`; then it emits the finalize-phase results; the final memo satisfies the memo invariant |

## Left out

- `parametersStartsWith` and its body are not part of this model. `Matches` takes it as a relation, and every lemma holds for any relation.
- `InstructionFilters.Matches` treats providers (`() -> String` and similar) as the value they return when `matches` calls them. Laziness and side effects of providers are not modelled.
- The `Double` constructor of `LiteralFilter` (`toRawBits`) is not modelled, because floating point is out of scope. A caller passes the raw `Long` instead.
- The fingerprint scanner that consumes `maxInstructionsBefore` is not part of this model. The budget is carried, and its defaults are proved.
- dexlib2's `Opcode` enumeration becomes plain numbers. Instruction kinds other than wide literals and method or field references become `OtherReference` or no reference.
- Logging, `decodeResources`, `close`, `get` and the bytecode and resource contexts are I/O and are left out. `invoke`'s resource decode before the run is not modelled.
- Exception messages and stack traces are left out. Failures are kept by kind only: apply fault, failed previously, dependency failed (which dependency and why), finalize fault.
- Exceptions thrown by the `execute` and `finalize` blocks are the `Bodies` oracle. The `PatchException` branch stores the thrown exception itself and the plain-`Exception` branch wraps it in a new `PatchException`; both turn the fault into a failure result for the patch, so they are one outcome. A patch without a finalize block is modelled as one whose finalize completes.
- `Raises` stands for an `Exception` only. The `catch` clauses at Patcher.kt:90-93 and 123-127 do not catch a `Throwable` that is not an `Exception`, such as `NotImplementedError` from `TODO()` or a `StackOverflowError`. Such an error escapes `execute` or `finalize`, is not memoised, and ends the whole flow. The model has no such outcome.
- `OpcodesFilter`'s `List` constructor (InstructionFilter.kt:111) calls `EnumSet.copyOf`, which throws `IllegalArgumentException` for an empty list. So a filter built with `opcodes = emptyList()` fails when it is constructed. In the model, `Some({})` is a filter that matches nothing. Construction failures are not modelled.
- `Patching.StringLess` compares characters as Unicode scalar values. Kotlin's `compareTo` compares UTF-16 code units. The two orders differ only between a supplementary character (above U+FFFF) and a character in U+E000..U+FFFF.
- The flow is lazy; the model builds it eagerly as a sequence. Consumers that stop early are not modelled.
- Dependency cycles are excluded by numbering patches topologically. On a cycle the source would recurse until the stack overflows.
- A patch's dependency set is a sequence in that set's iteration order. The requested-patch set becomes a Dafny set.
- `Patching.SortedByName`: `sortedBy` is stable and keeps the set's iteration order for equal names. The model breaks such ties by patch number instead.
- `Patching.Patcher.constructor`: `PatcherConfig` is not part of this model. The mode a new patcher starts with is taken to be `NONE`.
- `PatchOption.kt` and the test files are context, not modelled.

Three behaviours of the code are worth stating because a reader might expect otherwise:
- Default opcodes of `MethodFilter`. Its KDoc (InstructionFilter.kt:184-185) says it matches any `INVOKE_*` opcode by default. But the default `null` is passed on to `OpcodesFilter`, which accepts every opcode. The model follows the code: `MethodFilterWithoutCriteria` admits any opcode.
- The `"this"` sentinel. The defining-class test first tries `"this"` as an ordinary suffix, and only then as the enclosing class. `ThisSentinelIsExact` and `ThisFilterMatchesOwnClass` show that this is harmless for class descriptors, which end in `;`.
- What the apply phase memoises and emits:
  - only results of patches whose apply block ran are memoised;
  - only requested patches are emitted;
  - a patch whose own apply block failed is memoised, so meeting it again reports "failed previously";
  - a patch that failed only through a dependency is not memoised, so meeting it again re-runs its dependency loop and reports "dependency failed", citing the dependency's "failed previously".

  `ChainRequestingOnlyDependent` and `ChainRequestingAll` state this for a chain of three patches.

## Findings

| source | as written | input that shows it | evidently intended | confidence | as-written member | corrected member |
|---|---|---|---|---|---|---|
| src/main/kotlin/app/revanced/patcher/InstructionFilter.kt:52 | the lambda given to `filters.any` calls `matches(method, instruction, methodIndex)`, which resolves to the `AnyFilter`'s own `matches`, not `it.matches` | any `AnyFilter` with at least one filter: every call re-enters itself until the stack overflows | true iff one of the wrapped filters matches | high (not executed) | InstructionFilters.AnyFilterNeverAnswers | InstructionFilters.AnyFilterMatches |

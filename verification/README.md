# Verified model of the BPMN-OS engine

This project models the parts of the BPMN-OS execution engine whose correctness is hard to see from the code, and
proves what they promise. To verify: `dafny verify dfyconfig.toml`.

- **Objects** (`Schemas`, `Layouts`, `Correspondence`, `Resizing`, `Merging`, `Conversion`, `Assignment`). A nested value
  is stored as one flat vector addressed by a recursive layout of sizes and offsets. Its meaning is a partial map from
  paths to values. Locating, resizing, merging, converting and assigning objects are proved against that meaning.
- **Texts** (`Texts`, `SchemaTexts`, `ValueTexts`, `Literals`, `LiteralTexts`). Schemas and objects are printed and read
  again. What is printed is read back exactly under conditions a caller can look up in the schema or the object.
- **Candidates** (`Caching`, `CacheStates`, `CacheRuns`, `EntryCaching`, `Messages`). Evaluated decisions are cached until a clock tick
  or an announced write may change them, and messages are matched with requests incrementally. Both agree with starting
  from scratch after any run, the cache under the condition stated below.
- **Runs and forks** (`Forking`, `Scheduling`, `Bisections`, `Choices`). A fork cannot be told from its run before the
  spawn time; scheduled events are released once, on time and in order; bisection stands in for enumeration.
- **Tokens** (`SequenceFlows`, `Progress`, `InclusiveJoins`, `Performers`, `Compensations`, `Objectives`, `Interning`). The converging
  inclusive gateway, the sequential performer, the compensation chain, the running objective, and the registration of
  constants by concurrent threads are step systems; the invariants hold in every reachable state. The relevant standard
  is BPMN 2.0.2, sections 13.3.5, 13.4.3 and 13.5.5.

`Basics` and `Sequences` hold shared types and lemmas.

Code that works by changing things is modelled by classes and methods with the same loops, proved against functions on
values: each method states the new state as a function of the old one, or what the loop computes, and the properties are
proved of these functions and of the invariants the methods keep. In each step system a lemma per operation shows what
it does to a value of type `Situation`, `Cache` or `State`, and the methods of the class are proved to perform it.

Numbers are exact integers scaled by 10^6. Pointers to equal layouts and objects are equal values. Expressions,
evaluators and random streams are arbitrary functions. Exceptions are results.

## What turned out to hold only under a condition

- A fork and its run agree on when a process is ready exactly if every timestamp row is at its process. The known time
  follows rows at the process only, so a timestamp row at a node within it may instantiate the process earlier than it is
  disclosed (`Forking.TimestampElsewhereDisagrees`, `Forking.ReadyTimesAgreeExactly`).
- Runs of compensations stay chains exactly if the awaiter map has an entry for none of those started. Otherwise an entry
  is overwritten; if it is the one of the last compensation of an unfinished run, the token waiting for that run is never
  reached, as happens if all compensations are started while those of one activity are under way
  (`Compensations.ChainsStayExactly`, `Compensations.WaitingTokenIsLost`, `Compensations.OverlappingRunsLoseAToken`).
- A write keeps the objective equal to the recomputed sum exactly if the scope owning the value counts already or the
  weighted value is unchanged (`Objectives.SystemState.Write`).
- Clearing the cache keeps the time of the last tick. Right after another state is installed nothing is stale, but while
  that time has not passed, what depends on time is evaluated once and not again. Every later run is right exactly if no
  handled decision can change its reward between the installed and the kept time, in particular if the kept time is not
  later (`CacheRuns.StaysRightExactly`, `CacheRuns.KeptTimeYieldsStaleReward`).
- An enumerated choice holds every multiple of its step within the stated bounds if the attribute is a decimal, the step
  a whole number, or both bounds are integers. Otherwise the bounds are rounded to integers first, although the step is
  not, so that a fractional multiple within them may be missing (`Choices.NothingIsLostExactly`, `Choices.HalfIsLost`).
- The guard of an inclusive gateway does not see a token on a flow into the gateway itself. This is harmless because
  activations are decided only after all commands have settled (`InclusiveJoins.ActivationIsSafe`,
  `InclusiveJoins.PendingIsSafe`).
- An object is not read back from its text if a value is undefined, an array or struct is empty, a string holds a quote,
  a field name is no word or the first of its struct begins with a digit, a boolean is neither zero nor one, or an integer is fractional or
  exceeds 32 bits. In every other case it is (`LiteralTexts.RoundTrip`).
- Bisection returns the best value it evaluated. That this is the enumerated optimum is proved where the feasible values
  come first with increasing rewards or last with decreasing ones (`Bisections.FirstBisectionalChoice.DiscreteBisection`).
  Between feasible ends a peak may be missed (`Bisections.PeakIsMissed`), though not among three values
  (`Bisections.ThreeValuesAreSearched`).
- A schema is read back from its text exactly if its structs have fields, of distinct valid names, and its sizes are
  positive and can be represented (`SchemaTexts.RoundTrip`); nothing else is ever read.

## Model

| member | source | states |
|---|---|---|
| `Layouts.PlaceFields` | model/utility/src/Object.cpp:28-41 | laying out a struct in a loop gives every field the total size of the fields before it as offset |
| `Layouts.PlacedIsContiguous` | model/utility/src/Object.cpp:34-40 | fields so placed are contiguous: each begins where the one before it ends, and together they fill the struct |
| `Layouts.PathAtIsLocated` | model/utility/src/Object.cpp:12-41 | gap-free: every position of an object is the position of the single value some path addresses |
| `Layouts.PathsAreDisjoint` | model/utility/src/Object.cpp:12-41 | disjoint: single values stored at one position are addressed by one path |
| `Layouts.FollowWithin` | model/utility/src/Object.cpp:248-272 | a part addressed by a path agrees with its schema and lies within the object |
| `Layouts.Locate` | model/utility/src/Object.cpp:248-272 | walking the steps with a running offset finds exactly the part the path means, or fails for the same reason: unknown field, index out of range |
| `Correspondence.Correspond` | model/utility/src/Object.cpp:153-171 | the recursive walk over two objects makes the visits of the specification, in their order |
| `Correspondence.PathIsVisited` | model/utility/src/Object.cpp:148-171 | complete: the value at every path both objects have is visited, at its position in each |
| `Correspondence.VisitHasPath` | model/utility/src/Object.cpp:148-171 | sound: every visit is made for a path both objects have |
| `Correspondence.VisitsAreFunctional` | model/utility/src/Object.cpp:153-171 | visits stay within both objects, and no position of the second object is visited for two positions of the first |
| `Correspondence.VisitsKeepValues` | model/utility/src/Object.cpp:274-282 | copying along the visits into undefined positions keeps the value of every common path and leaves all else undefined |
| `Resizing.RebuildAgrees` | model/utility/src/Object.cpp:182-214 | the rebuilt layout agrees with its schema, with contiguous offsets, and has the structure of the original |
| `Resizing.RebuildReaches` | model/utility/src/Object.cpp:182-214 | after rebuilding, exactly the paths through elements below the new size of the addressed array, and all other paths, can be followed |
| `Resizing.RebuildSizes` | model/utility/src/Object.cpp:182-214 | only the addressed array, in every element holding it, changes its size and the size its schema fixes |
| `Resizing.CopyVisited` | model/utility/src/Object.cpp:277-280 | writing along the visits gives every visited position its value and leaves the others undefined |
| `Resizing.Resize` | model/utility/src/Object.cpp:274-282 | the resized object is valid and keeps every value at its path; it fails exactly where the steps reach no array |
| `Resizing.ResizeByPath` | model/utility/src/Object.cpp:274-282 | resizing by path: the result has the old value at every path of both, is undefined at every new path, and every other array keeps its size |
| `Merging.MergeAllIsConsensus` | model/utility/src/Object.cpp:295-313 | taking the first value and giving up on a conflict yields the one value all holders defining one agree on, and none otherwise |
| `Merging.MergeAttribute` | execution/engine/src/Token.h:218-234 | the attribute loop with its break on a conflict yields the consensus of the statuses |
| `Merging.WidenIsUpperBound` | model/utility/src/Object.cpp:216-244 | the widened layout has room for every value of both layouts |
| `Merging.WidenIsLeast` | model/utility/src/Object.cpp:216-244 | and is the smallest such layout, fixing whatever both fix alike |
| `Merging.WidenSizes` | model/utility/src/Object.cpp:222-229 | the array reached by any steps has the larger of the two sizes and is fixed only where both fix it at one size |
| `Merging.WidenAll` | model/utility/src/Object.cpp:289-292 | widening over all objects gives the least upper bound of their layouts |
| `Merging.Merge` | model/utility/src/Object.cpp:284-316 | a merged object has the least layout with room for all objects and holds at every path the value the objects agree on |
| `Merging.MergeIsOrderIndependent` | model/utility/src/Object.cpp:284-316 | the merge of objects is determined by which objects are merged, not by their order or how often each occurs |
| `Merging.MergeStatus` | execution/engine/src/Token.h:201-236 | the merged status has the latest timestamp, the consensus on every other attribute, and the merge of every object |
| `Merging.MergedStatusIsOrderIndependent` | execution/engine/src/Token.h:201-236 | permuting the tokens that meet at a join gives the same status |
| `Conversion.DetermineLayout` | model/utility/src/Object.cpp:337-392 | a determined layout agrees with the target schema |
| `Conversion.LayoutIsDetermined` | model/utility/src/Object.cpp:337-392 | a layout is determined exactly if the source schema can be cast: values of one type, as many dimensions, and no unknown field |
| `Conversion.CopyInto` | model/utility/src/Object.cpp:394-425 | copying fails exactly if a defined value would be cut off, and otherwise writes every value both layouts have to its place |
| `Assignment.LeafIsKept` | model/utility/src/Object.cpp:337-392 | a value of the source has a place in the determined layout exactly if its path respects the fixed sizes of the schema |
| `Assignment.FittingIsNotCutOff` | model/utility/src/Object.cpp:404-407 | copying refuses nothing exactly if every defined value of the object is at a path that fits the schema |
| `Assignment.Convert` | model/utility/src/Object.cpp:562-567 | conversion succeeds exactly if the schemas can be cast and every defined value fits, and then the same values are at the same paths and nothing else is defined |
| `Assignment.SupportedConversionIsIdentity` | model/utility/src/Schema.cpp:196-212 | where the schema supports that of the object, converting would succeed and leave the flat values as they are, so that skipping it is sound |
| `Assignment.DetermineTargetSchema` | model/utility/src/Schema.cpp:216-234 | the target of an assignment differs from the effective schema at most in sizes |
| `Assignment.FitsTarget` | model/utility/src/Schema.cpp:216-234 | a path fits the target exactly if it stays within the current object wherever the effective schema fixes a size |
| `Assignment.SupportedKeepsSizes` | model/bpmnos/src/extensionElements/AttributeRegistry.cpp:144-146 | an object assigned without conversion keeps the current size of every array the effective schema fixes |
| `Assignment.Assigned` | model/bpmnos/src/extensionElements/AttributeRegistry.cpp:141-158 | a whole assignment succeeds exactly if the value can be cast to the effective schema and every defined value is within the current sizes of its fixed arrays; the result has the same values at the same paths and the current size of every fixed array |
| `Texts.NumeralRoundTrip` | model/utility/src/Schema.cpp:97-105 | the decimal numeral of a number consists of digits and is read as that number |
| `SchemaTexts.SchemaParser.ParseType` | model/utility/src/Schema.cpp:20-43 | the parser, moving its position through the text, reads exactly what the notation of types says, or fails for the stated reason |
| `SchemaTexts.SchemaParser.ParseDimensions` | model/utility/src/Schema.cpp:24-37 | the loop over dimensions reads them outermost first |
| `SchemaTexts.SchemaParser.ParseObject` | model/utility/src/Schema.cpp:112-138 | the loop over fields reads a struct, refusing an empty one, a repeated name or a missing separator |
| `SchemaTexts.SchemaParser.ParseName` | model/utility/src/Schema.cpp:77-86 | a name is a letter or underscore followed by name characters, read to its end |
| `SchemaTexts.SchemaParser.ParseSize` | model/utility/src/Schema.cpp:97-110 | a size is a non-empty sequence of digits stating a positive number that fits the size type |
| `SchemaTexts.SchemaParser.SkipWhitespace` | model/utility/src/Schema.cpp:60-64 | the position moves past exactly the whitespace ahead |
| `SchemaTexts.ParseSchema` | model/utility/src/Schema.cpp:143-148 | parsing reads one schema and nothing besides whitespace |
| `SchemaTexts.WalkDimensions` | model/utility/src/Schema.cpp:150-157 | the loop collects the dimensions outermost first and ends at the type of the innermost elements |
| `SchemaTexts.Stringify` | model/utility/src/Schema.cpp:150-176 | the loop over dimensions and the recursion over fields print the notation of the schema |
| `SchemaTexts.TypeRoundTrip` | model/utility/src/Schema.cpp:20-43 | the notation of a printable schema, whatever may follow it, is read back as that schema, leaving what follows |
| `SchemaTexts.ReadTypeIsPrintable` | model/utility/src/Schema.cpp:20-138 | whatever is read has non-empty structs, distinct valid names and positive sizes |
| `SchemaTexts.RoundTrip` | model/utility/src/Schema.cpp:143-176 | parsing what stringify prints yields the schema exactly if its structs are non-empty with distinct valid names and its sizes are positive and can be represented |
| `SchemaTexts.TextBesidesIsRefused` | model/utility/src/Schema.cpp:143-148 | the text of a schema followed by anything else is refused |
| `SchemaTexts.EmptyStructIsRefused` | model/utility/src/Schema.cpp:112-138 | a struct without fields is refused as such |
| `ValueTexts.ToString` | model/utility/src/Number.cpp:118-129 | removing the trailing zeros and then a trailing decimal point from the six-digit form gives the short form |
| `ValueTexts.DecimalTextIs` | model/utility/src/Number.cpp:107-112 | a decimal is printed as its sign, its whole part, a point and at least one digit |
| `ValueTexts.TextsAreShort` | model/utility/src/Number.cpp:104-129 | a number is printed with a sign exactly if it is negative, and without leading or trailing zeros that could be left out |
| `ValueTexts.FractionIsRead` | model/utility/src/Number.cpp:118-129 | the digits printed after the point state the millionths of the number, however many zeros were removed |
| `ValueTexts.DecimalIsRead` | model/utility/src/Number.cpp:100-112 | a decimal is read from its text as the same number and as a decimal |
| `ValueTexts.IntegerIsRead` | model/utility/src/Number.cpp:104-105 | an integer is read from its text as the same number and as an integer |
| `ValueTexts.ToIntIsExact` | model/utility/src/Number.cpp:104-105 | the conversion to a 32-bit integer is exact for whole numbers of 32 bits and no others |
| `ValueTexts.ToIntWraps` | model/utility/src/Number.cpp:104-105 | it gives 32 bits and differs from the number without its fraction by a multiple of 2 to the 32 |
| `ValueTexts.IndexOfRegistered` | model/utility/src/StringRegistry.cpp:18-40 | a registered string is represented by its own index, as strings are distinct in every registry that `ValueTexts.ReadScalarIsProper` leads to |
| `ValueTexts.ValueRoundTrip` | model/utility/src/InputEncoder.cpp:402-424 | the text of a proper value, integers having 32 bits, is read as the same value and type, and registers no string |
| `ValueTexts.ReadScalarIsProper` | model/utility/src/InputEncoder.cpp:402-424 | whatever a member is read as is proper for its type, and strings registered earlier keep their indices |
| `Literals.Render` | model/utility/src/Object.cpp:84-114 | printing an object from its layout and offsets writes the notation of its tree, undefined values and empty arrays included |
| `Literals.FlatOfTree` | model/utility/src/Object.cpp:84-114 | the tree of an object holds exactly the values of the object, in their order |
| `Literals.LayoutOfTree` | model/utility/src/InputEncoder.cpp:463-494 | the layout determined from the tree of an object is that of the object with every array of its schema open |
| `Literals.LayoutOfAgrees` | model/utility/src/InputEncoder.cpp:463-494 | the layout determined from a literal agrees with its schema, and every array of the schema is open |
| `Literals.SizeOfFlat` | model/utility/src/InputEncoder.cpp:295-301 | a literal has as many values as its layout has positions |
| `Literals.Flatten` | model/utility/src/InputEncoder.cpp:496-517 | writing through layout offsets replaces the positions of the literal by its values in order and no others |
| `Literals.TreeOfFlat` | model/utility/src/InputEncoder.cpp:496-517 | an object made from a literal has that literal as its tree |
| `LiteralTexts.Scan.FindMemberEnd` | model/utility/src/InputEncoder.cpp:435-461 | the loop over depth and quotes finds the next comma or closing bracket outside every bracket and quote |
| `LiteralTexts.Scan.FieldsFollow` | model/utility/src/InputEncoder.cpp:261-276 | a brace opens a value with fields exactly if a name and ':=' follow |
| `LiteralTexts.Scan.ScanMember` | model/utility/src/InputEncoder.cpp:377-433 | a member is read as an array, a value with fields or a single value, and anything else is refused for the stated reason |
| `LiteralTexts.Scan.ScanArray` | model/utility/src/InputEncoder.cpp:303-331 | the loop over elements reads an array, refusing an empty or unterminated one |
| `LiteralTexts.Scan.ScanFields` | model/utility/src/InputEncoder.cpp:333-375 | the loop over fields reads a value with fields, refusing an empty or repeated name or a missing ':=' |
| `LiteralTexts.Scan.ScanInitializer` | model/utility/src/InputEncoder.cpp:282-293 | one literal and nothing besides whitespace is read |
| `LiteralTexts.ScanObject` | model/utility/src/InputEncoder.cpp:282-301 | scanning, determining the layout and flattening into an array give the object the text states, and the strings registered |
| `LiteralTexts.MemberRoundTrip` | model/utility/src/InputEncoder.cpp:303-433 | the text of a literal that can be stated, followed by a separator or closing bracket, is read back and nothing beyond it is |
| `LiteralTexts.ReadLiteralIsStatable` | model/utility/src/InputEncoder.cpp:303-433 | whatever is read has non-empty arrays and structs, distinct names and proper values |
| `LiteralTexts.LiteralIsReadAlone` | model/utility/src/InputEncoder.cpp:282-301 | the text of a literal is read exactly if nothing besides whitespace follows it |
| `LiteralTexts.EmptyArrayIsRefused` | model/utility/src/InputEncoder.cpp:303-331 | an array without elements is refused as such |
| `LiteralTexts.WrappedIsPrintedAlike` | model/utility/src/Number.cpp:104-105 | an integer beyond 32 bits is printed like the integer it wraps around to |
| `LiteralTexts.RoundTrip` | model/utility/src/Object.cpp:84-114 | scanning what stringify prints yields the same flat values in the same layout with every array open exactly if the object is fully defined, no array or struct is empty, strings have no quotes, and integers have 32 bits |
| `Caching.InstanceEvaluations.AddHas` | execution/controller/src/CachedCandidates.cpp:104-111 | appending to the list of an instance, created if need be, adds that decision and no other |
| `Caching.ObsoleteExactly` | execution/controller/src/CachedCandidates.cpp:86-102 | the decisions moved from a list are the live ones depending on a written attribute, and the others stay |
| `Caching.UnaffectedAgree` | execution/controller/src/CachedCandidates.cpp:126-141 | a decision an announced update does not affect depends on no cell that changed, which `CacheStates.UpdateKeeps` uses for those that stay evaluated |
| `Caching.Emplace` | execution/utility/src/auto_set.h:111-113 | a candidate is inserted behind those of at least its reward, so that equal rewards stay in the order of evaluation |
| `CacheStates.NoticeKeeps` | execution/controller/src/CachedCandidates.cpp:20-24 | a new decision is pending, and a cache that agrees with evaluating anew still does |
| `CacheStates.RequeueRestores` | execution/controller/src/CachedCandidates.cpp:86-102 | requeueing every decision whose evaluation may have changed restores the agreement |
| `CacheStates.MovedExactly` | execution/controller/src/CachedCandidates.cpp:126-141 | over all instances, exactly the live decisions the update affects are moved, each once |
| `CacheStates.TickRestores` | execution/controller/src/CachedCandidates.cpp:174-194 | requeueing what depends on time restores the agreement at the new time |
| `CacheStates.EvaluationKeeps` | execution/controller/src/CachedCandidates.cpp:49-74 | evaluating a pending decision, listing it and indexing it for what it depends on keeps the agreement |
| `CacheStates.UpdateKeeps` | execution/controller/src/CachedCandidates.cpp:126-164 | an announced update, wherever it is written, keeps the indexes in order and the agreement on the new data |
| `CacheStates.RebuiltIsConsistent` | execution/controller/src/CachedCandidates.cpp:151-158 | a rebuilt cache is in order and nothing of it is stale, whatever time of a last tick was kept |
| `CacheRuns.StepKeeps` | execution/controller/src/CachedCandidates.cpp:20-194 | every event, and every step taken when the collection is iterated, keeps the cache in order, and in agreement if it was |
| `CacheRuns.RunKeeps` | execution/controller/src/CachedCandidates.cpp:20-194 | so does every run |
| `CacheRuns.StaysRightExactly` | execution/controller/src/CachedCandidates.cpp:151-194 | after a state is installed, every run yields present rewards and misses no evaluated feasible decision exactly if no handled decision can change its reward between the installed and the kept time; in particular if the kept time is not later |
| `CacheRuns.KeptTimeYieldsStaleReward` | execution/controller/src/CachedCandidates.cpp:166-194 | with a last tick at 10, a state installed at 0 and a decision rewarded with the time, iterating at 5 yields the reward 0 while it is 5 now |
| `CacheRuns.DrainedOnce` | execution/controller/src/CachedCandidates.cpp:32-47 | how far the pending decisions are drained is determined by them and by what is feasible now |
| `CacheStates.YieldedAreFresh` | execution/controller/src/Candidates.h:50-52 | every candidate yielded is live and carries the reward its decision would get now, best first and none twice |
| `CacheStates.FeasibleAreYielded` | execution/controller/src/Candidates.h:50-52 | every live decision that is feasible now and not pending is yielded |
| `CacheStates.FrontIsBest` | execution/utility/src/auto_set.h:78-89 | the first unexpired candidate carries the maximum over all live feasible decisions that are not pending |
| `EntryCaching.EntryCandidates.Notice` | execution/controller/src/candidates/SequentialEntries.cpp:23-48 | a request becomes pending unless it is within a sequential ad-hoc subprocess and the collection leaves those to another one, or is not and the collection is for those only; the agreement is kept |
| `EntryCaching.EntryCandidates.RemoveDependentEvaluations` | execution/controller/src/CachedCandidates.cpp:126-141 | a global attribute concerns every instance, any other one the instance writing it; what is removed is requeued in order |
| `EntryCaching.EntryCandidates.Write` | execution/controller/src/CachedCandidates.cpp:160-164 | an announced write is a step of a run of the collection: whatever it affects is pending again, and the agreement is kept on the new data |
| `EntryCaching.EntryCandidates.AdvanceTime` | execution/controller/src/CachedCandidates.cpp:166-172 | unless the last tick was as late, everything depending on time is pending again; the agreement is kept |
| `EntryCaching.EntryCandidates.AddEvaluation` | execution/controller/src/CachedCandidates.cpp:49-74 | an evaluated decision is listed by its reward and indexed for time, data or both |
| `EntryCaching.EntryCandidates.EvaluateDecisions` | execution/controller/src/CachedCandidates.cpp:32-47 | pending decisions are evaluated in turn up to exactly the first one that is live and feasible now, which is returned, or to the end if none is or the collection wants all; those behind it stay pending |
| `EntryCaching.EntryCandidates.Dispatch` | execution/controller/src/candidates/FirstFeasibleEntry.cpp:53-65 | where the cache agreed with evaluating anew, nothing is taken exactly if no live decision is feasible now; what is taken carries its present reward, the maximum over all live feasible decisions but those left pending behind the first feasible one, of which sequential entries leave none |
| `EntryCaching.EntryCandidates.Iterate` | execution/controller/src/candidates/SequentialEntries.cpp:50-59 | where the cache agreed with evaluating anew, iterating drains the pending decisions to the first feasible one, or all, and yields live candidates with their present rewards, best first, and from sequential entries all feasible ones |
| `EntryCaching.EntryCandidates.Install` | execution/controller/src/CachedCandidates.cpp:151-158 | the cache is cleared and rebuilt but for the time of the last tick; it agrees with evaluating anew for good if no handled reward can change up to that time |
| `Forking.SampleInto` | execution/data/src/StochasticDataProvider.cpp:239-371 | the loop over rows leaves the scenario with the values, objects and times of the specification, failing exactly where an expression yields no value |
| `Forking.SampleAgain` | execution/data/src/StochasticDataProvider.cpp:321-343 | resampling gives the first admitted draw that is not early or has no value, or the last one |
| `Forking.CreateScenario` | execution/data/src/StochasticDataProvider.cpp:225-229 | a run is sampled without a lower bound: every row has its first draws as content and disclosure, and sampling fails exactly if some row's first draw has no value |
| `Forking.DrawnIsNotEarly` | execution/data/src/StochasticDataProvider.cpp:320-343 | what a fork samples anew is disclosed, and a timestamp lies, at the spawn time or later, for any stream |
| `Forking.OthersAreDrawn` | execution/data/src/StochasticDataProvider.cpp:239-371 | every row not kept is given what is drawn for it, its first draw unless it is a timestamp |
| `Forking.ForkAgrees` | execution/data/src/StochasticDataProvider.cpp:231-371 | a fork keeps value and disclosure time of every initialization disclosed before the spawn time, discloses no other one before it, and all nodes agree on disclosure times truncated there |
| `Forking.ForkScenario` | execution/data/src/StochasticDataProvider.cpp:231-237 | a fork of any run or fork agrees with it before the instant after its current time, and every other row is drawn anew, timestamps and disclosures being the first of the admitted draws at the spawn time or later, or the spawn time |
| `Forking.NotGivenIsKept` | execution/data/src/StochasticDataProvider.cpp:239-246 | what no row gives is as the instance has it |
| `Forking.ScopesAreCovered` | execution/data/src/StochasticDataProvider.cpp:359-370 | a node is disclosed no earlier than the rows given before it for the scope containing it |
| `Forking.DisclosureIsGiven` | execution/data/src/StochasticDataProvider.cpp:359-370 | and exactly with one of the rows of the node and of the scopes around it, or from the start |
| `Forking.ForkReadyTimesAgree` | execution/data/src/StochasticDataProvider.cpp:385-387 | with timestamps given at processes, known and ready times truncated at the spawn time are those of the run |
| `Forking.TimestampElsewhereDisagrees` | execution/data/src/StochasticDataProvider.cpp:354-357 | a timestamp row at a node within the process lets a run and a fork disagree on when the process is ready |
| `Forking.ReadyTimesAgreeExactly` | execution/data/src/StochasticDataProvider.cpp:239-387 | ready times agree in every run and fork exactly if every timestamp row is at its process |
| `Scheduling.Scenario.Schedule` | execution/data/src/StaticDataProvider.cpp:381-390 | a due event is released at once and appended to the queue exactly if it exists, any other is inserted, and the schedule stays exact |
| `Scheduling.Scenario.Insert` | execution/data/src/StaticDataProvider.cpp:381-390 | an entry is inserted behind those due no later |
| `Scheduling.Scenario.ClockTick` | execution/data/src/StaticDataProvider.cpp:221-234 | a clock tick releases what has become due, in order, and leaves nothing due by then; exactly the released events that exist at that time are appended to the queue |
| `Scheduling.ReleasedOnce` | execution/data/src/StaticDataProvider.cpp:221-234 | in an exact history no event is released twice or scheduled at two places |
| `Scheduling.FirstReleased` | execution/data/src/StaticDataProvider.cpp:221-234 | releasing the first entry keeps every release at the first instant not before its due time, in order of due times and then of scheduling |
| `Scheduling.Scenario.Advance` | execution/data/src/StaticDataProvider.cpp:275-285 | before the end time a run is terminated only with no tokens and every scheduled event released |
| `Bisections.FirstBisectionalChoice.BestEnumeratedChoice` | execution/controller/src/candidates/FirstBisectionalChoice.cpp:72-89 | enumeration finds the first of the best feasible values |
| `Bisections.FirstBisectionalChoice.FindFeasible` | execution/controller/src/candidates/FirstBisectionalChoice.cpp:101-128 | intervals are halved level by level, so that the feasible value found is the first one in breadth-first order of middles, and none is found exactly if no value within is feasible |
| `Bisections.FirstBisectionalChoice.FindBetweenFeasibleAndInfeasible` | execution/controller/src/candidates/FirstBisectionalChoice.cpp:160-179 | the middles evaluated are exactly those of narrowing towards the infeasible value, up to adjacent values; never loses the best and finds the optimum of a feasible prefix with increasing rewards |
| `Bisections.FirstBisectionalChoice.FindBetweenInfeasibleAndFeasible` | execution/controller/src/candidates/FirstBisectionalChoice.cpp:181-200 | the middles evaluated are exactly those of narrowing from the infeasible value; never loses the best and finds the optimum of a feasible suffix with decreasing rewards |
| `Bisections.FirstBisectionalChoice.FindBetweenFeasibleAndFeasible` | execution/controller/src/candidates/FirstBisectionalChoice.cpp:130-158 | the middles evaluated are exactly those of the recursive search, which goes on at the side of the better end until the ends are adjacent or the middle is infeasible or no better than both; the best of them is kept |
| `Bisections.FirstBisectionalChoice.DiscreteBisection` | execution/controller/src/candidates/FirstBisectionalChoice.cpp:202-259 | the search starts from both ends or, if only one or none of them is feasible, as stated for that case; a decision is found exactly if some value is feasible, it is the best of all evaluated, and it is the enumerated optimum for a prefix with increasing or a suffix with decreasing rewards |
| `Bisections.RightwardsEnds` | execution/controller/src/candidates/FirstBisectionalChoice.cpp:160-179 | narrowing towards an infeasible value ends at two adjacent values, the first feasible and the second not, unless a middle was no better |
| `Bisections.LeftwardsEnds` | execution/controller/src/candidates/FirstBisectionalChoice.cpp:181-200 | so does narrowing from an infeasible value |
| `Bisections.InwardsEnds` | execution/controller/src/candidates/FirstBisectionalChoice.cpp:130-158 | the search between feasible values ends at evaluated feasible values that are adjacent or whose evaluated middle is infeasible or no better than both |
| `Bisections.ThreeValuesAreSearched` | execution/controller/src/candidates/FirstBisectionalChoice.cpp:130-158 | of three values with feasible ends the best reward is found |
| `Bisections.PeakIsMissed` | execution/controller/src/candidates/FirstBisectionalChoice.cpp:130-158 | with rewards 1, 2, 3, 4, 10, 0 the value with reward 3 is chosen |
| `Bisections.OptimumIsUnique` | execution/controller/src/candidates/FirstBisectionalChoice.cpp:72-89 | there is one optimum, so that `Bisections.FirstBisectionalChoice.DiscreteBisection` and `BestEnumeratedChoice` return the same decision where both ensure an optimal one |
| `Choices.GetBounds` | model/bpmnos/src/extensionElements/Choice.cpp:163-188 | the returned bounds admit exactly the stated values for a decimal, and for any other attribute exactly those between two integers that satisfy the stated bounds |
| `Choices.GetEnumeration` | model/bpmnos/src/extensionElements/Choice.cpp:194-239 | alternatives with a value are returned in their order; otherwise the result is strictly ascending, within the stated bounds, and holds exactly the multiples that the bounds admit of the absolute value of the step, which is one if none is given for a boolean or integer; without a positive step it fails |
| `Choices.ListAlternatives` | model/bpmnos/src/extensionElements/Choice.cpp:198-207 | the loop collects the values of exactly the alternatives that have one, in their order |
| `Choices.NothingIsLostExactly` | model/bpmnos/src/extensionElements/Choice.cpp:163-236 | every multiple within the stated bounds is enumerated exactly if the attribute is a decimal, no multiple lies within them, or the first and the last that do lie between the bounds rounded to integers |
| `Choices.WholeNumbersLoseNothing` | model/bpmnos/src/extensionElements/Choice.cpp:163-236 | in particular if the step is a whole number or both bounds are integers that may be taken |
| `Choices.HalfIsLost` | model/bpmnos/src/extensionElements/Choice.cpp:179-182 | for an integer from 0.5 to 2 in steps of 0.5, the value 0.5 is within the bounds and not enumerated |
| `Choices.Multiples` | model/bpmnos/src/extensionElements/Choice.cpp:226-235 | the loop terminates with every multiple of the step between the bounds and no other |
| `SequenceFlows.FindPredecessors` | model/bpmnos/src/Model.cpp:462-482 | the worklist terminates with exactly the nodes from which the gateway is reached without visiting it in between |
| `SequenceFlows.PrecedesAlong` | model/bpmnos/src/Model.cpp:462-482 | a flow into the gateway or a predecessor leaves a predecessor |
| `InclusiveJoins.AttemptGatewayActivation` | execution/engine/src/StateMachine.cpp:1229-1243 | the gateway is activated exactly if no other token blocks it |
| `InclusiveJoins.ActivationIsSafe` | execution/engine/src/StateMachine.cpp:1229-1243 | in an acyclic graph some run of departures, arrivals, copies and releases brings a token to the gateway exactly if the guard fails or a token is on a flow into the gateway |
| `InclusiveJoins.PendingIsSafe` | execution/engine/src/Engine.cpp:62-72 | a pending activation is of a gateway that no run can bring another token to |
| `InclusiveJoins.StateMachine.AdvanceToDeparted` | execution/engine/src/Token.cpp:1110-1116 | a departing token is on its flow, and a pending command lets it arrive |
| `InclusiveJoins.StateMachine.AdvanceToArrived` | execution/engine/src/Token.cpp:1118-1137 | a token arrives at the target of its flow; it waits there at a join, awaits an event at an activity, and is to enter any other node |
| `InclusiveJoins.StateMachine.Advance` | execution/engine/src/Token.cpp:1066-1108 | a token entering its node stays, ends, or is to depart along a flow or to be copied; everything stays in order |
| `InclusiveJoins.StateMachine.HandleDivergingGateway` | execution/engine/src/StateMachine.cpp:954-1077 | one token is added at the gateway for every flow taken, with a command for each to depart, and one is removed unless the gateway is event-based; activated gateways stay out of reach |
| `InclusiveJoins.StateMachine.CreateMergedToken` | execution/engine/src/StateMachine.cpp:973-1022 | one waiting token is consumed from each flow that has one, one token is at the gateway instead and a command lets it enter; no token can reach the gateway any more |
| `InclusiveJoins.StateMachine.Execute` | execution/engine/src/Engine.cpp:53-60 | the first command is removed and executed, and does to the tokens and to the commands behind it what the source does |
| `InclusiveJoins.StateMachine.DrainCommands` | execution/engine/src/Engine.cpp:53-60 | executing pending commands, entries, splits and merges among them, terminates, in situations that follow each other by executing the first command each time, with no token on a sequence flow |
| `InclusiveJoins.StateMachine.AttemptActivations` | execution/engine/src/Engine.cpp:62-72 | once commands have settled, exactly the gateways with waiting tokens whose guard holds are activated |
| `InclusiveJoins.StateMachine.ProcessCommands` | execution/engine/src/Engine.cpp:51-74 | whatever tokens do at their nodes, the loop terminates in an acyclic graph, by executing commands in their order and deciding on activations whenever none is pending; no token can reach a gateway that was activated, and every gateway with waiting tokens is blocked |
| `Progress.FewerAhead` | docs/md/logic/main.md:38 | in an acyclic graph fewer flows are ahead of a token after each one it takes |
| `Progress.EffortOfSome` | execution/engine/src/StateMachine.cpp:954-971 | departing along any of the flows out of a node takes less effort than being there, so that splits do not keep commands from running out |
| `Performers.MutualExclusion` | execution/engine/src/Token.cpp:1508-1551 | a performer performs at most one child activity, by the invariant that `Performers.Engine.ProcessEntry`, `AdvanceFromCompleted`, `AdvanceToFailed` and `Withdraw` keep |
| `Performers.DeferredWhileBusy` | execution/engine/src/Token.cpp:1281-1301 | a child activity awaiting entry has no decision request exactly while another one is performed |
| `Performers.Engine.AwaitEntryEvent` | execution/engine/src/Token.cpp:1281-1301 | a child activity becoming ready is listed, and offered only at an idle performer |
| `Performers.Engine.ProcessEntry` | execution/engine/src/Engine.cpp:352-372 | the decided activity is performed and the requests of all others are withdrawn |
| `Performers.Engine.OccupySequentialPerformer` | execution/engine/src/Token.cpp:1508-1527 | the performer is idle, and every listed live activity is ready and has a request, so that no assertion fails |
| `Performers.Engine.ReleaseSequentialPerformer` | execution/engine/src/Token.cpp:1529-1551 | the performer is busy and no ready listed activity has a request, so that no assertion fails; each gets one |
| `Performers.Engine.AdvanceFromCompleted` | execution/engine/src/Token.cpp:913-989 | a completed activity releases its performer, and a looping one awaits entry again |
| `Performers.Engine.AdvanceToFailed` | execution/engine/src/Token.cpp:1149-1159 | a failing activity releases the performer exactly if it is performed, and awaits entry no longer |
| `Performers.Engine.Withdraw` | execution/engine/src/Token.cpp:1375-1403 | a withdrawn activity releases the performer exactly if it is performed |
| `Performers.Engine.Remove` | execution/engine/src/StateMachine.cpp:783-794 | a token that has failed or been withdrawn is removed and no longer in the way of other entries |
| `Performers.Engine.ClearObsoleteTokens` | execution/engine/src/StateMachine.cpp:747-752 | withdrawing a scope token by token and removing them together keeps the lock, and leaves all other tokens as they were, whatever had failed or been withdrawn before |
| `Compensations.StateMachine.CreateCompensationToken` | execution/engine/src/StateMachine.cpp:913-919 | a completed activity registers its compensation behind those before it |
| `Compensations.StateMachine.GetCompensationTokens` | execution/engine/src/StateMachine.cpp:1362-1397 | exactly the compensations of the activity, or all, are returned once each, in the order of registration |
| `Compensations.StateMachine.LinkAwaiters` | execution/engine/src/StateMachine.cpp:1483-1503 | the awaiter map links each compensation to the one registered before it, and the first registered to the waiting token |
| `Compensations.StateMachine.Compensate` | execution/engine/src/StateMachine.cpp:1459-1504 | the last compensation becomes active and the others are chained; all runs stay chains if the awaiter map has an entry for none of them, and the token waiting is busy or failing by the time its turn comes |
| `Compensations.StateMachine.Throw` | execution/engine/src/Token.cpp:499-514 | a token at a throw event is to be busy and waits while what is selected is compensated, and goes on at once if nothing is |
| `Compensations.StateMachine.Terminate` | execution/engine/src/Token.cpp:1224-1240 | a failing scope has all that is registered compensated, and its failure is handled at once if nothing is |
| `Compensations.StateMachine.Execute` | execution/engine/src/Engine.cpp:53-60 | the commands are executed in their order, so that a waiting token is busy before the first compensation is advanced; what was executed and what is pending account for every turn taken |
| `Compensations.IdleIsFinished` | execution/engine/src/StateMachine.cpp:1400-1443 | a token nothing leads to in the awaiter map has all compensations of its last run behind it, and may wait again |
| `Compensations.ChainsStayExactly` | execution/engine/src/StateMachine.cpp:1483-1503 | starting compensations keeps every run a chain exactly if the awaiter map has an entry for none of them |
| `Compensations.ClaimedIsAwaited` | execution/engine/src/StateMachine.cpp:1483-1503 | a registered compensation is part of a run exactly if the awaiter map has an entry for it |
| `Compensations.WaitingTokenIsLost` | execution/engine/src/StateMachine.cpp:1483-1503 | if the last compensation of an unfinished run is started on behalf of another token, no entry leads to the token waiting for that run any more |
| `Compensations.OverlappingRunsLoseAToken` | execution/engine/src/StateMachine.cpp:1459-1504 | four compensations are registered, those of one activity are started and then all of them: the token waiting for the first run awaits nothing any more |
| `Compensations.StateMachine.AdvanceTokenWaitingForCompensation` | execution/engine/src/StateMachine.cpp:1400-1429 | a compensation whose turn it is moves to the active tokens; a busy token has the command enqueued that advances it, a failing one those by which it fails and its failure is handled |
| `Compensations.StateMachine.CompleteCompensationActivity` | execution/engine/src/StateMachine.cpp:1431-1443 | a compensation whose advance was executed gives the one awaiting it its turn, enqueuing its advance, and leaves every other run as it was: of every run the compensations up to the active one are advanced in order, and after the last one the waiting token is advanced, or fails and has its failure handled |
| `Compensations.ReverseOrder` | execution/engine/src/StateMachine.cpp:1459-1504 | a finished run has compensated every token of its list exactly once, in reverse order of registration, by the invariant that `Compensations.StateMachine.Compensate` establishes and `CompleteCompensationActivity` keeps |
| `Compensations.AdvancedInOrder` | execution/engine/src/StateMachine.cpp:1400-1443 | the commands advancing the compensations of a run come in reverse order of registration, each behind all those before it and none twice |
| `Compensations.PlaceInRun` | execution/engine/src/StateMachine.cpp:1400-1443 | a compensation of a run is in exactly one of the completed, the active and the registered ones, as its place in the order says |
| `Objectives.SystemState.constructor` | execution/engine/src/SystemState.cpp:8-23 | the objective is seeded with the weighted globals, and nothing is announced |
| `Objectives.SystemState.AddToObjective` | execution/engine/src/Engine.cpp:284-289 | a change is added and announced unless it is zero |
| `Objectives.CountingAdds` | execution/engine/src/StateMachine.cpp:890-902 | counting the values a scope owns adds the weighted sum of its own attributes |
| `Objectives.SystemState.UpdateObjective` | execution/engine/src/StateMachine.cpp:883-905 | accounting the data a scope owns keeps the objective equal to the recomputed sum |
| `Objectives.SystemState.SetValue` | model/bpmnos/src/extensionElements/AttributeRegistry.cpp:189-205 | a write through the shared data returns by how much the recomputed sum changes if the value counts |
| `Objectives.SystemState.Write` | model/bpmnos/src/extensionElements/AttributeRegistry.cpp:189-205 | after a write the objective equals the recomputed sum exactly if the value counts or its weighted value is unchanged |
| `Objectives.SystemState.Complete` | execution/engine/src/Token.cpp:923-935 | completing a scope accounts the final values of its status attributes |
| `Messages.Matches` | execution/engine/src/Message.cpp:40-52 | headers match exactly if they have the same parameters and agree wherever both state a value |
| `Messages.CreateMessageCandidates` | model/bpmnos/src/Model.cpp:706-751 | nodes of different processes with the same name and header keys, admitted by the message flows, become candidates of each other, each once; it fails if the types of their messages differ |
| `Messages.CreateMessageFlows` | model/bpmnos/src/Model.cpp:427-457 | over all nodes, candidates are symmetric, free of repetition and exactly the pairs that may exchange a message; it fails exactly if the types of such a pair differ |
| `Messages.MessageDeliveries.NoticeRequest` | execution/controller/src/candidates/MessageDeliveries.cpp:31-51 | a request is matched with every live message, each pair registered once |
| `Messages.MessageDeliveries.NoticeMessage` | execution/controller/src/candidates/MessageDeliveries.cpp:52-72 | a message is matched with every live request, each pair registered once |
| `Messages.MessageDeliveries.Install` | execution/controller/src/candidates/MessageDeliveries.cpp:73-85 | rebuilding from an installed state registers exactly the live pairs that match |
| `Messages.MatchingIsExact` | execution/controller/src/candidates/MessageDeliveries.cpp:31-89 | the live decisions depend only on what is live, by the invariant that `Messages.MessageDeliveries.NoticeRequest`, `NoticeMessage`, `ExpireRequest`, `ExpireMessage` and `Install` keep in any order |
| `Interning.SearchIsExact` | model/utility/src/ObjectRegistry.cpp:40-49 | a search under the lock finds a constant exactly if it is published, even among equal hashes |
| `Interning.EventKeeps` | model/utility/src/ObjectRegistry.cpp:31-79 | every step of every thread keeps the registry consistent, and nothing published changes |
| `Interning.InternedForGood` | model/utility/src/ObjectRegistry.cpp:31-79 | in every interleaving, an index below the counter refers to a complete entry that never changes, and equal constants have equal indices |
| `Interning.RegistrationsAgree` | model/utility/src/ObjectRegistry.cpp:51-79 | registrations by any threads return the same index exactly for equal constants |
| `Interning.ReaderFindsEntry` | model/utility/src/ObjectRegistry.cpp:31-38 | a reader that has checked its index against the counter finds the entry completely written |
| `Interning.RefusedExactly` | model/utility/src/ObjectRegistry.cpp:61-78 | a new constant is refused exactly if the registry is full, an index exactly if nothing is published with it |
| `Interning.RegistrationEnds` | model/utility/src/ObjectRegistry.cpp:61-78 | whatever the others do, a thread holding the lock has registered its constant, or was refused by a full registry, after seven steps of its own |
| `Interning.StandsStillExactly` | model/utility/src/ObjectRegistry.cpp:51-79 | a step of a thread changes nothing exactly if the thread has nothing to do or waits for the lock |
| `Interning.SomeThreadGoesOn` | model/utility/src/ObjectRegistry.cpp:51-79 | while some thread has something to do, some thread can go on |
| `Interning.AloneRegisters` | model/utility/src/ObjectRegistry.cpp:51-79 | a thread running alone while nobody holds the lock has registered its constant after ten steps |
| `Interning.AloneReads` | model/utility/src/ObjectRegistry.cpp:31-38 | a reader finds the entry with the index in two steps, or that there is none |

## Left out

- Layouts.Locate: the steps and indices are those of an attribute path; that exactly as many indices as element steps are given is a precondition, an assertion in the source.
- Merging.MergeStatus: requires every status to have a timestamp and the same attributes, as the source does; which tokens are merged is decided elsewhere.
- Conversion.DetermineLayout: error messages and the sharing of equal layouts are not modelled.
- LiteralTexts.Scan.ScanMember: a member of an object initializer may be an expression; it is refused here, as in a constant.
- LiteralTexts.ScanObject: an object initializer, whose members may be expressions, and the scan of literals within a longer text are not modelled; a member that is no value is refused as in a constant.
- LiteralTexts.RoundTrip: numbers are exact; rounding of doubles and the 64-bit range of numbers are not modelled, and digits beyond the sixth decimal place are dropped.
- ValueTexts.ValueRoundTrip: the registry of strings is a sequence without repetition; its locking is not modelled.
- CacheStates.FrontIsBest: rewards are exact numbers rather than doubles, and an infeasible decision has none rather than minus infinity.
- EntryCaching.EntryCandidates.Write: that every write is announced is an assumption; choices are written without an announcement in execution/engine/src/Engine.cpp:387-391.
- EntryCaching.EntryCandidates.Dispatch: what is yielded while a kept time has not passed is characterised by CacheRuns.StaysRightExactly only; decisions are values with an explicit expiry instead of objects held by weak pointers.
- Forking.SampleInto: ready and completion expressions of a scenario, which are evaluated later, are left out.
- Scheduling.Scenario.ClockTick: what a released event does, and the events an instantiation schedules in turn, are left out; the schedule is ordered by due time and number of scheduling.
- Bisections.FirstBisectionalChoice.DiscreteBisection: rewards are those of one choice; several choices of one request are enumerated in the source and left out.
- Scheduling.Scenario.Schedule: takes the time of the scenario for that of the system state; the two differ only while a clock tick is being noticed, when nothing is scheduled.
- Messages.CreateMessageCandidates: which pairs of nodes the message flows closest to them admit is an arbitrary relation, and the validation of messages that instantiate processes is left out.
- Messages.MessageDeliveries.NoticeMessage: the evaluation of deliveries is not modelled; the source never advances the time of this collection (execution/controller/src/candidates/MessageDeliveries.cpp:91-100).
- InclusiveJoins.ActivationIsSafe: boundary events are left out, and the graph is acyclic as the source requires of a model.
- InclusiveJoins.StateMachine.Advance: what a token does between entering its node and leaving it is an arbitrary choice among the ways to go on; a diverging gateway without any flow to take, an error in the source, is excluded.
- Performers.Engine.ClearObsoleteTokens: nested scopes are withdrawn as one list of tokens, and the token of the performer outlives its child activities.
- Compensations.StateMachine.Compensate: only compensations at compensate boundary events; those of event subprocesses are owned by one state machine and held by another.
- Compensations.StateMachine.Execute: of a command only its effect on the states of tokens is modelled; a compensation completes at any time after the command advancing it has been executed.
- Compensations.StateMachine.CompleteCompensationActivity: failures of a compensation are left out.
- Objectives.SystemState.Write: numbers are exact, so that the sum does not depend on the order of changes.
- Interning.EventKeeps: shared memory is sequentially consistent; the release and acquire orders of the source are not modelled.
- The parallel gateway, which counts waiting tokens rather than flows.
- The two-way merge of competing candidates, and the selection of error and escalation catchers: easy given the rest.
- The declaration of sizes for a schema, and reading objects from JSON.
- The deep copies of a system state, whose matching of nodes is heuristic.
- XML, CSV and JSON files, the command line, logging, wall-clock waiting and the reclamation of memory.

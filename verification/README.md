# Easy::jit, verified

Easy::jit partially applies a C++ function at run time. A call such as `easy::jit(f, _2, 4, _1)` keeps
some parameters behind placeholders, bakes the others in as constants and produces a wrapper. Around
LLVM the project has its own algorithms: a static pass that decides which globals need their bitcode
kept, a compile-time computation of the specialised signature, a run-time pass that builds the wrapper
and turns raw memory into constants, a registry, a code cache, and the kernels it is demonstrated on.
This project models those algorithms in Dafny and proves what they are for.

The modules, by subject:

- **Graph closures.** `ValueGraph` is a finite, possibly cyclic graph of LLVM values. `MayAliasTracing`
  is the two-mode depth-first tracer and `ReferenceWorklist` the worklist; both are proved equal to a
  reachability relation from `Reachability`.
- **Struct images.** `DataLayout` defines types, alignment, padding and three layouts of a type: the ABI
  layout, the packed layout of the reader and the layout that the static serialiser produces.
  `StructImage` writes and reads trees of bit patterns through any such layout. `PackedImage` is the
  serialiser, `PackedReader` the packed walk, `PackedExactness` says when the two agree, `StructConstants` the two-pass walk that builds a global.
- **The specialiser.** `JitContext` records the caller's arguments, `Placeholders` is the template
  recursion, `Specialiser` the run-time pass, `SpecialiserCorrectness` the theorems about it,
  `WrapperCreation` the pass as a whole,
  `WrapperAttributes` the attribute copy and `StructByValue` the fields of a struct bound by value.
- **State machines.** `CodeCache`, `Registry`, `EntryTags` with the theorems about trees of compositions in
  `CompositionCorrectness`.
- **Rewriting and kernels.** `RecastCalls`, `ImageFilter`, `QuickSort`, `DotProduct`.

Where the code does not meet the property one would expect, the code is kept as it is, a lemma gives
an input, and another lemma gives the exact condition:

| what fails | counterexample | exactly when it holds |
|---|---|---|
| forwarding when a placeholder is used twice: the search by position runs off the end | `RepeatedPlaceholderCounterexample` | `DefinedIffOnceUsed` |
| a placeholder written with two types can be rejected although nothing is missing | `RespelledCounterexample` | `MappingCorrect` |
| attributes under struct return land one parameter early | `StructReturnCounterexample` | `FollowIffNoHidden` |
| a struct bound by value as several fields: padding bytes are read as field bytes | `PaddedStructCounterexample` | `PassedIffNoGap` |
| the cache serves code for 0.0 to a call with -0.0 | `NegativeZeroCounterexample` | `TransparentExactly` |
| a cached call with a NaN is never found again and compiles each time | `NaNCounterexample` | `FoundIffNoNaN`, `RecompiledIffNaN` |
| two functions under one name share the first one's globals after deserialisation | `SharedNameCounterexample` | `DeserializeAgreesIffOwned` |
| a function composed with itself, or bound to a pointer to itself: linking destroys the function that the pass is wrapping | `SelfCompositionCounterexample` | `CompiledExactly`, `PlainFaithfulIff` |
| a function that calls itself loses its name to a composed function that merely declares it | `RecursiveTargetCounterexample` | `CompiledExactly`, `PlainFaithfulIff` |
| a function that reaches g through a helper and is composed with a specialised g: the helper's call is redirected | `CapturedCallCounterexample` | `FaithfulIff` |
| the packed reader misreads arrays of padded elements | `PaddedArrayIff` | `ReadsBackIff` |
| the benchmark's comparator does not sort | `IntCmpCounterexample` | `SortsIffConsistent` |
| an empty mask writes outside the image | `EmptyMaskCounterexample` | `InsideIffMask` |

A direct call of g, in contrast, was resolved to a private g before the pass starts and is safe
(`DirectCallHarmless`), unless the function calls itself later (`ResolveOrderMatters`).

The struct that is bound by value as several fields is latent today: the layout constructor gives each
argument a single type (`runtime/pass/InlineParametersHelper.cpp:26-37`), and `SingleTypePasses` shows
that such an argument is always passed correctly.

Modelling choices. Integers are unbounded and every width that matters is explicit: `ToIntegral` and
`ConstantBits` for integral parameters, the 32-bit indices of the filter, the four-byte size header. A
C++ exception or a failed static assertion is a value (`Threw`, `Rejected`, `None`). A read of an
iterator past the end, which is undefined in C++, is the value `None` of the search. Hash functions,
the compiler and the meaning of the specialised function are arbitrary function parameters. Loop
bodies that would be long are split into one method per step; such helpers follow the source's order
of effects. Floats are bit patterns, except in the dot product, which is over exact reals.

## Model

| member | source | states |
|---|---|---|
| `MayAliasTracing.MayAliasTracer.constructor` | pass/MayAliasTracer.h:22-26 | for every finite graph, cyclic or not, the tracer ends and its set holds exactly the global objects reachable from the start value |
| `MayAliasTracing.MayAliasTracer.MayAliasWithStoredValues` | pass/MayAliasTracer.cpp:10-31 | everything newly visited is reachable, every newly visited point has all its successors visited, and the global set is that of the visited points; the measure is the set of unvisited points |
| `MayAliasTracing.MayAliasTracer.MayAliasWithLoadedValues` | pass/MayAliasTracer.cpp:33-75 | the same for the Loaded mode, mutually recursive with the Stored mode |
| `MayAliasTracing.ExploredIsReachable` | pass/MayAliasTracer.cpp:10-75 | a walk from nothing visited visits a point if and only if it is reachable |
| `MayAliasTracing.TraceIgnoresOrder` | pass/MayAliasTracer.cpp:26-30 | reordering users, or the operands of phi nodes and constant arrays, does not change the traced globals |
| `MayAliasTracing.TracedIsLeast` | pass/MayAliasTracer.cpp:10-75 | the traced globals are the functions and variables in every pair of sets that holds the start and is closed under the flow rules, which name the operand that each kind of instruction passes on |
| `MayAliasTracing.Sections.DeduceObjectsToJit` | pass/Easy.cpp:225-241 | a global is put in the jit section if and only if it already was, or is constant and may alias an argument of some interface call |
| `ValueGraph.GlobalObjects` | pass/Easy.cpp:156-160 | global objects are functions and variables; every function is constant, a variable if it says so |
| `ReferenceWorklist.PushReferences` | pass/Easy.cpp:363-379 | the pending stack gains exactly the direct references of a value |
| `ReferenceWorklist.GetReferencedFromEntry` | pass/Easy.cpp:352-383 | every function reachable through operands, bodies and initialisers is returned exactly once and nothing else is, on cyclic graphs too |
| `ReferenceWorklist.NeededIsLeast` | pass/Easy.cpp:363-379 | a function is returned if and only if it is in every set that holds the entry and is closed under operands, operands of body instructions and initialisers |
| `DataLayout.LayoutWellPlaced` | runtime/pass/InlineParametersHelper.cpp:317-337 | in the ABI layout of every type, parts are in order, disjoint and inside their block |
| `DataLayout.NaturalAlignment` | runtime/pass/InlineParametersHelper.cpp:134-177 | every supported leaf has the size of its type and is aligned to it |
| `StructImage.LeavesDisjoint` | runtime/pass/InlineParametersHelper.cpp:306-364 | all leaf byte ranges of a value are disjoint, ordered and inside its size |
| `StructImage.LayoutAligned` | runtime/pass/InlineParametersHelper.cpp:319-336 | every leaf of an aligned image without packed structs is at a multiple of its own alignment |
| `StructImage.WriteFrame` | runtime/pass/InlineParametersHelper.cpp:306-364 | laying a value out changes no byte outside its range |
| `StructImage.ReadFrame` | runtime/pass/InlineParametersHelper.cpp:306-364 | what is read depends only on the bytes of the value's range |
| `StructImage.ImageRoundTrip` | runtime/pass/InlineParametersHelper.cpp:306-364 | a value laid out over arbitrary padding bytes is read back unchanged, for every well-placed layout |
| `StructConstants.GetConstantFromRaw` | runtime/pass/InlineParametersHelper.cpp:134-199 | for every supported leaf: the bit pattern stored at the address and the number of bytes consumed |
| `StructConstants.PreparedIsLinked` | runtime/pass/InlineParametersHelper.cpp:255-304 | after the prepare pass the function table has gained exactly the non-null function pointers of the image, each with the function registered at that address or no constant |
| `StructConstants.LookupsHit` | runtime/pass/InlineParametersHelper.cpp:341-353 | when all pointers have an entry, every lookup of the second pass hits and the table is unchanged |
| `StructConstants.WalkedIsConstant` | runtime/pass/InlineParametersHelper.cpp:306-364 | the second pass, which may insert empty entries as it goes, builds the constant that its starting table determines |
| `StructConstants.CompleteIffRegistered` | runtime/pass/InlineParametersHelper.cpp:105-132 | the constant has no missing part if and only if every function pointer in it is registered |
| `StructConstants.GlobalStructRoundTrip` | runtime/pass/InlineParametersHelper.cpp:384-402 | running the two-pass builder on the image of a value, over any padding, gives a constant that holds the value at every path, complete if and only if its function pointers are registered |
| `StructConstants.GlobalStructBuilder.StoreStructFieldPrepare` | runtime/pass/InlineParametersHelper.cpp:255-304 | the imperative pass leaves the table of `PreparedIsLinked` |
| `StructConstants.GlobalStructBuilder.StoreStructFieldAsGlobal` | runtime/pass/InlineParametersHelper.cpp:306-364 | the imperative pass leaves the constant and the table of `WalkedIsConstant` |
| `StructConstants.GlobalStructBuilder.GetGlobalStruct` | runtime/pass/InlineParametersHelper.cpp:384-402 | at every path of the type the result holds what the image holds there: the function registered at the address, null, no constant for an unregistered address, or the bits of the leaf; the table's keys are the function pointers, and nothing is missing if and only if they are all registered |
| `StructConstants.ConstantOfUnique` | runtime/pass/InlineParametersHelper.cpp:306-364 | only one constant holds what a value holds at every path |
| `PackedImage.PackedBelowLayout` | runtime/pass/InlineParametersHelper.cpp:201-253 | the packed size never exceeds the ABI size, with equality if and only if the type has no padding |
| `PackedImage.PaddingFreeSameShape` | runtime/pass/InlineParametersHelper.cpp:201-253 | a type without padding has the same packed and ABI layout |
| `PackedImage.WalksAgree` | runtime/pass/InlineParametersHelper.cpp:201-364 | on types without padding the packed walk and the layout walk read the same value from the same image |
| `PackedImage.SerializedIsPacked` | pass/Layout.cpp:79-100 | the serialiser writes the reader's packed layout if and only if arrays hold padding-free elements |
| `PackedImage.SerializedBelowLayout` | pass/Layout.cpp:79-100 | what the serialiser writes for a member is at most its store size, with equality if and only if no struct in it has padding |
| `PackedImage.SerializedFits` | pass/Layout.cpp:130-146 | the final offset never exceeds the reserved size, with equality if and only if no nested struct has padding |
| `PackedImage.StoresContiguous` | pass/Layout.cpp:79-100 | the stores that `SerializeStruct` reports each begin where the previous one ended and together cover the serialised range |
| `PackedImage.GetStructSize` | pass/Layout.cpp:73-77 | the reserved size is the sum of the members' store sizes |
| `PackedImage.SerializeStruct` | pass/Layout.cpp:79-100 | the recursive walk with one shared offset and path leaves exactly the image of the designated member, nothing else changes, and its stores are contiguous up to the final offset |
| `PackedImage.DefineSerializeStruct` | pass/Layout.cpp:115-149 | the new buffer has the header, the reserved size, and an image from which the value is read back |
| `PackedImage.PackedRoundTrip` | include/easy/runtime/Context.h:18-24 | serialise, strip the four-byte header, read packed: every leaf comes back when arrays hold padding-free elements |
| `PackedExactness.ReadsBackIff` | include/easy/runtime/Context.h:18-24 | for every supported struct type: every buffer is read back by the packed walk as the value in it if and only if both layouts put every leaf at the same offset |
| `PackedExactness.MovedIsVisible` | runtime/pass/InlineParametersHelper.cpp:201-253 | layouts that differ in the offset of a leaf are told apart by some bytes |
| `PackedExactness.PaddingFreeReadsBack` | runtime/pass/InlineParametersHelper.cpp:201-253 | arrays of padding-free elements are enough |
| `PackedExactness.PaddedArrayIff` | pass/Layout.cpp:79-100 | an array of padded elements is always read back if and only if it has at most one element |
| `PackedReader.StoreStructField` | runtime/pass/InlineParametersHelper.cpp:201-253 | the packed walk consumes exactly the packed size and emits the stores of the value it stands on |
| `PackedReader.EveryLeafStored` | runtime/pass/InlineParametersHelper.cpp:231-250 | each leaf of the type is stored at its own path: the function registered at its address, or its bits |
| `PackedReader.StoresAreLeaves` | runtime/pass/InlineParametersHelper.cpp:201-253 | each leaf is stored exactly once, at its own path, and nothing else is stored |
| `PackedReader.ReadSerialized` | runtime/pass/InlineParametersHelper.cpp:366-382 | the stores emitted for a serialised argument are those of the leaves of the value that was serialised, each exactly once |
| `JitContext.Context.SetParameters` | include/easy/param.h:141-157 | the context keeps its arguments and gains one per parameter, in order: an integral argument as the value of the parameter's type congruent to it, widened to 64 bits; a pointer or reference by address, an object by its bytes, a wrapper by its module, a placeholder by its index; and then the effect of the options |
| `JitContext.Context.SetOptions` | include/easy/param.h:126-139 | the last option of each kind wins, and a kind that does not occur changes nothing |
| `JitContext.OptionsKeep` | include/easy/options.h:24-46 | no sequence of options changes the arguments or the raw bytes |
| `JitContext.OptionsLastWins` | include/easy/options.h:24-46 | over every sequence of options the last of each kind decides opt level, size level and dump file |
| `JitContext.RecordRecords` | include/easy/param.h:57-112 | the record of every accepted argument is the one its parameter type demands |
| `JitContext.GetContextFor` | include/easy/jit.h:56-71 | the context of a call records each argument as its parameter demands, has the last opt level and dump file given or 2, 0 and none, and never carries raw bytes |
| `JitContext.Context.SetArg` | include/easy/runtime/Context.h:137-141 | one argument is appended and nothing else changes |
| `JitContext.Context.Equals` | runtime/Context.cpp:29-44 | the two-iterator loop decides equality of opt levels and of all arguments |
| `JitContext.Context.ComputeHash` | include/easy/runtime/Context.h:239-252 | the loop computes the XOR fold of the argument hashes and the opt level hash |
| `JitContext.HashOfOne` | include/easy/runtime/Context.h:84-117 | one more argument adds its own primitive hash by XOR; a struct hashes its characters as signed |
| `JitContext.EqualContextsHashEqually` | include/easy/runtime/Context.h:221-252 | contexts that compare equal have equal hashes, for every lawful standard hash |
| `JitContext.FoldOfMultiset` | include/easy/runtime/Context.h:111-117 | a fold with an order-free operation depends only on the multiset of its elements |
| `JitContext.HashIgnoresOrder` | include/easy/runtime/Context.h:239-252 | the context hash depends only on the multiset of arguments and the opt level |
| `JitContext.ContextEqualsIsPartialEquivalence` | runtime/Context.cpp:29-44 | context equality is symmetric and transitive, and reflexive exactly on contexts without NaN |
| `JitContext.EqualContextsSameArguments` | include/easy/runtime/Context.h:79-82 | contexts that compare equal record the same arguments if and only if their zeros have the same signs |
| `JitContext.NaNPattern` | include/easy/runtime/Context.h:79-82 | the patterns that differ from themselves are those with a full exponent and a fraction |
| `JitContext.IntegralBitsSurvive` | runtime/pass/InlineParametersHelper.cpp:83-88 | widening a value of at most 64 bits to a signed 64-bit integer and truncating it to the IR type gives back its bit pattern, signed or unsigned |
| `JitContext.IntegralRoundTrip` | include/easy/param.h:80-85 | for every argument, in range or not, the constant read back at the parameter's type is the argument converted to that type |
| `JitContext.InRangeUnchanged` | include/easy/param.h:83-84 | a value in the range of the parameter type is converted to itself |
| `Placeholders.OptionsDiscarded` | include/easy/meta.h:96-117 | options that follow the arguments never reach the mapping |
| `Placeholders.MaxIsMax` | include/easy/meta.h:119-136 | the computed maximum bounds every placeholder and is used unless it is the start value |
| `Placeholders.Pigeonhole` | include/easy/meta.h:141-147 | n distinct placeholders from 1..n cover 1..n if and only if none is spelled in two ways |
| `Placeholders.MappingCorrect` | include/easy/meta.h:138-182 | the mapping is accepted if and only if some prefix of the arguments uses all of 1..max under one spelling each; on acceptance, parameter k is the one its placeholder first stands for, and no size assertion ever fails |
| `Placeholders.AcceptedIffGapFree` | include/easy/meta.h:138-182 | with one spelling per placeholder: accepted if and only if there is no gap, and the only error is the unbound one |
| `Placeholders.TooManyRejected` | include/easy/meta.h:167-168 | more arguments than parameters are rejected, unless nothing is forwarded |
| `Placeholders.RespelledCounterexample` | include/easy/meta.h:154-169 | the same placeholder under two types is rejected although nothing is missing |
| `Specialiser.CountNewArgs` | runtime/pass/InlineParameters.cpp:31-34 | the wrapper has one argument more than the largest forwarded index |
| `Specialiser.FillSlots` | runtime/pass/InlineParameters.cpp:36-49 | slot k holds the parameter of its first use, and the default where k is never used |
| `Specialiser.SetParamIdx` | runtime/pass/InlineParameters.cpp:51-55 | parameter indices are the prefix sums of the sizes and nothing else changes |
| `Specialiser.GetNewLayout` | runtime/pass/InlineParameters.cpp:27-57 | the three loops together: the declarative description of the wrapper's layout |
| `Specialiser.GetWrapperTy` | runtime/pass/InlineParameters.cpp:59-66 | the wrapper's type is the flattened parameter list behind the hidden return parameter |
| `Specialiser.GetForwardArgs` | runtime/pass/InlineParametersHelper.cpp:62-81 | the operands start at the parameter index of the first wrapper argument with the wanted position; none if and only if there is no such argument |
| `Specialiser.NewLayoutSearchable` | runtime/pass/InlineParametersHelper.cpp:71-75 | without gaps, the search by position finds the wrapper argument of a placeholder for its first use and for no other |
| `Specialiser.ReadFields` | runtime/pass/InlineParameters.cpp:114-127 | a struct passed by value gives one constant per field, each read just after the previous one |
| `Specialiser.GetBoundArg` | runtime/pass/InlineParameters.cpp:90-158 | the operands denote the bound argument: an integer modulo two to the power of its type's width, a float's bits, the name registered at an address or the address, the constant of a struct's image, the fields of a struct one after the other, a module's entry |
| `Specialiser.GetInlineArgs` | runtime/pass/InlineParameters.cpp:68-161 | in the operand list, every bound argument is denoted at the place where the original expects it, the hidden parameter comes first, and nothing else is passed |
| `SpecialiserCorrectness.DefinedIffOnceUsed` | runtime/pass/InlineParametersHelper.cpp:71-75 | for a gap-free context the inner call exists if and only if no placeholder is used twice |
| `SpecialiserCorrectness.FlattenSlice` | runtime/pass/InlineParameters.cpp:51-65 | argument k of the wrapper occupies exactly the flattened slots from its prefix sum on |
| `SpecialiserCorrectness.WrapperMeaning` | runtime/pass/InlineParameters.cpp:181-210 | for every function, well-formed layout (struct return or not), gap-free once-used context and arguments: the wrapper computes the function on the intended values, which are constants denoting the bound arguments and each forwarded group where its placeholder stood |
| `SpecialiserCorrectness.IntendedUnique` | runtime/pass/InlineParameters.cpp:77-161 | only one list of values is intended |
| `SpecialiserCorrectness.InnerCallTyped` | runtime/pass/InlineParameters.cpp:181-195 | the inner call has exactly the function's parameter types if and only if every linked or composed function has the type its parameter expects |
| `SpecialiserCorrectness.CompileTimeAgrees` | include/easy/meta.h:138-182 | whenever the compile-time mapping accepts, repeated placeholders and trailing options included, the run-time layout has the same parameters position by position and no gap |
| `SpecialiserCorrectness.AcceptedGapFree` | include/easy/meta.h:174-182 | acceptance by the compile-time mapping rules out gaps in the recorded context |
| `WrapperCreation.CreateWrapperFun` | runtime/pass/InlineParameters.cpp:181-210 | for every gap-free context the wrapper exists if and only if no placeholder is used twice; then it computes the function on the intended values, denotes every bound argument in place, is typed like the function exactly when the links are, and without struct return carries its attributes |
| `WrapperCreation.Specialise` | include/easy/jit.h:92-97 | every call that the compile-time mapping accepts, with once-used placeholders, gives a wrapper with that meaning and typing whose parameters are the announced ones; an integral argument reaches a w-bit parameter modulo two to the power of w |
| `SpecialiserCorrectness.RepeatedPlaceholderCounterexample` | runtime/pass/InlineParametersHelper.cpp:71-75 | a placeholder used twice: the layout exists, the inner call does not |
| `StructByValue.PassedIffNoGap` | runtime/pass/InlineParameters.cpp:114-127 | for every image of the struct each field is passed with its own value if and only if the type has no padding before a field |
| `StructByValue.GapIsVisible` | runtime/pass/InlineParameters.cpp:114-127 | for every type with padding before a field there is an image for which that field is passed wrongly |
| `StructByValue.PaddedStructCounterexample` | runtime/pass/InlineParameters.cpp:114-127 | a float followed by a double, recorded with its padding, is read from the wrong offset |
| `StructByValue.SingleTypePasses` | runtime/pass/InlineParametersHelper.cpp:26-37 | an argument of a single type, which is what the layout constructor builds, is always passed with its own value |
| `WrapperAttributes.RemapAttributes` | runtime/pass/InlineParameters.cpp:163-179 | each field of each wrapper argument carries the attributes of the field it came from, and no other index has any |
| `WrapperAttributes.AttributesFollowForwarding` | runtime/pass/InlineParameters.cpp:163-179 | where the attributes of each forwarded field land: on the parameter that carries it, shifted by the hidden return parameter if there is one |
| `WrapperAttributes.FollowIffNoHidden` | runtime/pass/InlineParameters.cpp:163-179 | for every gap-free context: whatever attributes the function has, they end up on the parameters that carry their fields, if and only if there is no hidden return parameter or nothing is forwarded |
| `WrapperAttributes.LostWithHidden` | runtime/pass/InlineParameters.cpp:170-178 | under struct return, for every layout that forwards something, an attribute of the last forwarded field is lost |
| `WrapperAttributes.StructReturnCounterexample` | runtime/pass/InlineParameters.cpp:170-178 | under struct return a forwarded pointer's attribute lands on the parameter before it |
| `CodeCache.RunOutcome` | include/easy/code_cache.h:25-34 | in every run, a call returns what the first call with an equal key compiled, and compiles directly if there was none |
| `CodeCache.HasIffUsed` | include/easy/code_cache.h:54-57 | a key is found if and only if an equal key was used earlier |
| `CodeCache.CompiledOnce` | include/easy/code_cache.h:28-32 | no two compilations of a run have equal keys |
| `CodeCache.AutoKeyLaws` | include/easy/runtime/Context.h:221-228 | equality of automatic keys is transitive and equal keys hash equally |
| `CodeCache.FindInBucket` | include/easy/code_cache.h:21-22 | searching the key's bucket agrees with searching all entries in order |
| `CodeCache.CacheIsTransparent` | include/easy/code_cache.h:61-83 | over every run of calls without negative zeros, a cached call equals direct compilation except if and only if it repeats a call whose compilation threw; then it returns the empty wrapper |
| `CodeCache.TransparentExactly` | include/easy/code_cache.h:61-83 | the cache cannot be told from direct compilation if and only if the first equal request had the same zero signs |
| `CodeCache.SameCompilation` | include/easy/code_cache.h:64-73 | calls with equal keys ask for the same function, opt levels and raw bytes, and for the same arguments if and only if their zeros have the same signs |
| `CodeCache.FoundIffNoNaN` | include/easy/code_cache.h:75-82 | a call made earlier in the run is found again if and only if it binds no NaN |
| `CodeCache.RecompiledIffNaN` | include/easy/code_cache.h:64-73 | a call repeated in a run reaches the compiler at every occurrence if and only if it binds a NaN, and otherwise at most once |
| `CodeCache.NaNAlwaysCompiled` | include/easy/code_cache.h:28-32 | in every run each occurrence of a call with a NaN is compiled |
| `CodeCache.NegativeZeroCounterexample` | include/easy/runtime/Context.h:79-82 | a call with -0.0 after one with 0.0 gets the code for 0.0 |
| `CodeCache.NaNCounterexample` | include/easy/runtime/Context.h:79-82 | a call with a NaN argument compiles again every time |
| `CodeCache.Cache.constructor` | include/easy/code_cache.h:15-22 | an empty cache whose buckets hold the entries of the empty run |
| `CodeCache.Cache.Find` | include/easy/code_cache.h:54-57 | walking one bucket finds what searching all entries finds |
| `CodeCache.Cache.HasKey` | include/easy/code_cache.h:54-57 | true if and only if an equal key was used in an earlier call |
| `CodeCache.Cache.JitCall` | include/easy/code_cache.h:25-51 | emplace, compile if new, overwrite: the buckets keep representing the run and the outcome is that of the specification, also when compilation throws |
| `CodeCache.NewAutoCache` | include/easy/code_cache.h:61-62 | an empty cache with contexts as keys and their hash as bucket, for every lawful standard hash |
| `CodeCache.AutoJit` | include/easy/code_cache.h:64-73 | after any calls without negative zeros, what the compiler makes of this function, these arguments and these opt levels, unless an equal earlier call threw |
| `CodeCache.AutoHas` | include/easy/code_cache.h:75-82 | true if and only if an equal call was made before |
| `Registry.FirstWins` | include/easy/runtime/BitcodeTracker.h:46-49 | after any run of emplacements the map holds each key with the value of its first occurrence |
| `Registry.KnownNameHasAddress` | include/easy/runtime/BitcodeTracker.h:46-49 | over every run of registrations a known name has a registered address |
| `Registry.DeserializeAgreesIffOwned` | runtime/Function.cpp:373-397 | when registrations of one address agree and a module's globals hold a name once, deserialisation finds the globals of the original compile if and only if the address was the first registered under its name |
| `Registry.OwnerAgrees` | runtime/Function.cpp:373-397 | for any registrations, the first address registered under its name is given its own globals |
| `Registry.DeserializeAgrees` | runtime/Function.cpp:342-397 | with unique name/address pairs, the tag left in a compiled module gives back the name it was compiled under and, through it, the same globals |
| `Registry.SharedNameCounterexample` | include/easy/runtime/BitcodeTracker.h:46-49 | two functions under one name: the second gets the globals of the first |
| `Registry.BitcodeTracker.RegisterFunction` | include/easy/runtime/BitcodeTracker.h:46-49 | both maps keep representing the run of registrations |
| `Registry.BitcodeTracker.GetAddress` | runtime/BitcodeTracker.cpp:32-37 | the address of the first registration under the name, null if there is none |
| `Registry.BitcodeTracker.GetNameAndGlobalMapping` | runtime/BitcodeTracker.cpp:39-46 | name and globals of the first registration of the address; throws if there is none |
| `Registry.BitcodeTracker.HasGlobalMapping` | runtime/BitcodeTracker.cpp:21-24 | true if and only if the address was registered |
| `Registry.BitcodeTracker.GlobalsForEntry` | runtime/Function.cpp:389-394 | the lookup through the name never throws, and gives no globals for an unknown name |
| `Registry.BitcodeTracker.Deserialize` | runtime/Function.cpp:373-397 | the name comes from the entry tag of the module and the globals from the registry under that name |
| `EntryTags.Module.GetEntryFunctionName` | runtime/Utils.cpp:17-34 | the name in the first well-formed entry node, none if there is no such node |
| `EntryTags.Module.MarkAsEntry` | runtime/Utils.cpp:36-43 | one entry node is appended |
| `EntryTags.Module.UnmarkEntry` | runtime/Utils.cpp:45-48 | all of the jit metadata is erased |
| `EntryTags.LinkedTags` | runtime/pass/InlineParameters.cpp:145-151 | the tags of both modules survive a link, and none of an unmarked one |
| `EntryTags.Module.LinkPointerIfPossible` | runtime/Function.cpp:295-314 | a registered function is linked in and made private, with the calls through its symbol bound to it; an unregistered one changes nothing |
| `EntryTags.Module.ResolveModule` | runtime/Function.cpp:316-336 | the direct calls of the target, collected first, are linked in order |
| `EntryTags.Module.LinkArgument` | runtime/pass/InlineParameters.cpp:131-158 | a composed module is linked without its tag, or a registered pointer from its bitcode; its function becomes private and is passed, the source module is untouched, and it is reported whether the target survived under its name |
| `EntryTags.Module.WrapTarget` | runtime/pass/InlineParameters.cpp:221-228 | the wrapper takes the target's name and becomes the entry, and the calls of the target stay with the original |
| `EntryTags.CompileTree` | runtime/pass/InlineParameters.cpp:212-231 | a compiled module defines its target visibly and its metadata is exactly one entry node, whatever was linked in |
| `EntryTags.CompileComposition` | runtime/Function.cpp:342-366 | compiling a tree of compositions bottom-up, resolving each target first, leaves the module about which the next theorems speak, and fails with the same error |
| `EntryTags.ExactlyOneEntry` | runtime/Utils.cpp:36-48 | over every tree of compositions that compiles, exactly one entry tag survives and it names the outer target |
| `CompositionCorrectness.ResolvedOk` | runtime/Function.cpp:316-336 | after resolving, the visible names are those that the bitcodes determine, each is called by some code, and every bound call reaches the function it names |
| `CompositionCorrectness.LinkStep` | runtime/pass/InlineParameters.cpp:147-154 | linking a function and making it private redirects a call if and only if the function is not the original of its name and some code still called that name through the symbol; calls are only ever bound to the function they name or a specialisation of it |
| `CompositionCorrectness.CompiledExactly` | runtime/pass/InlineParameters.cpp:131-158 | compilation is defined if and only if no target is lost: erased while visible, or renamed while private; then the entry is each function wrapped around its own original, all the way down, and some call was redirected if and only if a composed name was still in use |
| `CompositionCorrectness.FaithfulIff` | runtime/pass/InlineParameters.cpp:131-158 | a tree of compositions is compiled as intended, with every other call reaching what it names, if and only if both conditions on the names hold |
| `CompositionCorrectness.PlainFaithfulIff` | pass/Easy.cpp:385-415 | when bitcode defines nothing but its function visibly: compilation is defined if and only if no target is lost to itself, and as intended if and only if also nothing is captured, whatever is declared |
| `CompositionCorrectness.CompositionResolves` | runtime/pass/InlineParameters.cpp:131-158 | with distinct registered functions that no module mentions otherwise, every tree is compiled as intended |
| `CompositionCorrectness.SelfCompositionCounterexample` | runtime/pass/InlineParameters.cpp:147-154 | a function composed with itself or bound to a pointer to itself is not compiled: linking overrides the function that the pass still holds |
| `CompositionCorrectness.RecursiveTargetCounterexample` | runtime/pass/InlineParameters.cpp:221-227 | a function that calls itself, composed with one that declares it, loses its name; without the self call the same composition is as intended |
| `CompositionCorrectness.CapturedCallCounterexample` | runtime/pass/InlineParameters.cpp:147-154 | code that calls g only through a helper ends up calling the specialised g that its function is composed with |
| `CompositionCorrectness.DirectCallHarmless` | runtime/Function.cpp:316-336 | a direct call of g was bound to a private g before and is not redirected |
| `CompositionCorrectness.ResolveOrderMatters` | runtime/Function.cpp:333-335 | a function that calls g and then itself has its call of g open again and redirected; in the other order it has not |
| `CompositionCorrectness.SharedNamesHarmless` | runtime/pass/InlineParameters.cpp:147-154 | two specialisations of one function as arguments, and a function that recurs two levels down, are compiled as intended |
| `RecastCalls.CastCallWithPointerCasts` | runtime/pass/DevirtualizeConstant.cpp:113-131 | true if and only if the two types agree in everything except which pointers they take |
| `RecastCalls.CompatibleIffErased` | runtime/pass/DevirtualizeConstant.cpp:113-131 | the accepted pairs are exactly those that cannot be told apart once pointers are erased from the parameters |
| `RecastCalls.Body.RecastArguments` | runtime/pass/DevirtualizeConstant.cpp:154-164 | the casts and the new argument list, in argument order |
| `RecastCalls.Body.RecastCalls` | runtime/pass/DevirtualizeConstant.cpp:133-166 | the loop rewrites the instruction list to the one about which the next lemmas speak |
| `RecastCalls.RecastWellTyped` | runtime/pass/DevirtualizeConstant.cpp:133-166 | every instruction of a well-typed list stays well typed, recast calls against their stripped callee |
| `RecastCalls.CallsCorrespond` | runtime/pass/DevirtualizeConstant.cpp:140-164 | calls correspond one to one: untouched if they are direct or fail the check, otherwise direct, with the same argument count and order and at most one more pointer cast on each argument |
| `RecastCalls.RecastPreservesRun` | runtime/pass/DevirtualizeConstant.cpp:151-164 | the rewritten list calls the same functions with the same values in the same order |
| `RecastCalls.RecastScoped` | runtime/pass/DevirtualizeConstant.cpp:154-163 | operands are still defined before their uses |
| `RecastCalls.RecastIdempotent` | runtime/pass/DevirtualizeConstant.cpp:133-166 | a second pass changes nothing |
| `ImageFilter.IndexRoundTrip` | doc/readme/camfilter.cpp:51-54 | row, column and channel are recovered from a cell's index, so distinct coordinates have distinct cells |
| `ImageFilter.CellRoundTrip` | doc/readme/camfilter.cpp:51-54 | every cell is the cell of its own coordinates |
| `ImageFilter.ReadInBounds` | doc/readme/camfilter.cpp:49-53 | every mask and image element read is inside its buffer |
| `ImageFilter.WriteInBounds` | doc/readme/camfilter.cpp:41-54 | every cell written with a non-empty mask is inside the image, and is the input cell moved down and right by the mask's middle |
| `ImageFilter.InsideIffMask` | doc/readme/camfilter.cpp:41-54 | for every image at least as large as the mask all writes are inside if and only if the mask is not empty or the image has no cell |
| `ImageFilter.EmptyMaskOutside` | doc/readme/camfilter.cpp:41-54 | with an empty mask and any non-empty image the last pixel is written outside |
| `ImageFilter.Accumulate` | doc/readme/camfilter.cpp:48-53 | the two inner loops compute the convolution sum |
| `ImageFilter.DeltaMask` | doc/readme/camfilter.cpp:49-53 | a mask with a single element, in row r and column c, picks the pixel r rows below and c columns to the right |
| `ImageFilter.Additive` | doc/readme/camfilter.cpp:49-53 | the convolution is additive in the mask, so the single-element masks determine it |
| `ImageFilter.CellOfPixel` | doc/readme/camfilter.cpp:54-54 | the cell written for a pixel holds the sum divided by the area toward zero, as an unsigned char |
| `ImageFilter.Kernel` | doc/readme/camfilter.cpp:38-58 | every cell of the shifted interior holds its convolution value and every other cell is unchanged |
| `ImageFilter.EmptyMaskCounterexample` | doc/readme/camfilter.cpp:41-54 | the smallest instance: one pixel, one channel |
| `QuickSort.SwapInPlace` | benchmark/benchmark.cpp:276-282 | the two elements are exchanged, the others stay |
| `QuickSort.PartitionInPlace` | benchmark/benchmark.cpp:264-268 | the partition loop leaves the array and the index of the recursive specification |
| `QuickSort.Qsort` | benchmark/benchmark.cpp:255-273 | for every comparator the sort ends, with the array about which the next lemmas speak |
| `QuickSort.PartitionSplits` | benchmark/benchmark.cpp:266-268 | left of the split every element compares non-zero with the pivot, right of it every element compares zero |
| `QuickSort.SortRearranges` | benchmark/benchmark.cpp:255-273 | for every comparator the range is permuted and the rest of the array is untouched |
| `QuickSort.SortSorts` | benchmark/benchmark.cpp:255-273 | with a comparator consistent with a transitive order the range ends sorted by that order |
| `QuickSort.SortsIffConsistent` | benchmark/benchmark.cpp:255-273 | the sort orders every array by a transitive order if and only if the comparator is consistent with it |
| `QuickSort.StrictComparatorSorts` | benchmark/benchmark.cpp:266-268 | when a non-zero result means strictly before, under a strict weak order, no later element is before an earlier one |
| `QuickSort.IntCmpCounterexample` | benchmark/benchmark.cpp:241-252 | the benchmark's comparator is non-zero in both directions and turns [1, 2] into [2, 1] |
| `DotProduct.ReduceVector1` | benchmark/benchmark.cpp:94-97 | the reducer adds the four lanes |
| `DotProduct.ReduceVector2` | benchmark/benchmark.cpp:102-107 | so does the other reducer |
| `DotProduct.Accumulate` | benchmark/benchmark.cpp:118-126 | one block adds its four products to the total of the lanes |
| `DotProduct.DotProduct` | benchmark/benchmark.cpp:109-134 | with either reducer the blocked computation equals the plain sum of products for every N, zero for a negative N |

## Left out

- LLVM itself: the optimiser, the execution engine, bitcode reading and writing. Linking is the union of visible functions, in which definitions of the source override and redirect existing callers, plus concatenation of metadata; private functions are renamed on conflict and so never meet. Compilation is a deterministic function that may throw.
- Vtable hooking, `mprotect`, reserved registers and the machine-function pass in `runtime/Function.cpp`: they depend on foreign memory layout.
- The `HighLevelLayout` constructor (`runtime/pass/InlineParametersHelper.cpp:11-60`): under struct return its loop runs past the last parameter, so a well-formed layout is the input instead.
- Conversions between float and double and `long double`: floats are opaque bit patterns, and an arithmetic argument comes with what it converts to. Conversions of pointers and enumerations to integral parameters are not modelled.
- A registered function and its private helpers are one piece of code with a set of outside calls; which helper calls what is not modelled, and neither is what the optimiser removes between two links. What the pass does after its target was erased or renamed is an error value here; the source goes on with a dangling pointer or under another name.
- `WrapperCreation.CreateWrapperFun`: linking is taken to leave the target in place; a bound pointer to the target itself, or a composition that takes its name, is the subject of `CompositionCorrectness`.
- `PackedImage.Store`: the source stores a member through a byte pointer without casting it first (`pass/Layout.cpp:86-87`), unlike `SerializeArguments`; the model stores the member.
- `jit_` with raw bytes: the cache never takes that path, so cached contexts carry none.
- Data-pointer leaves in the walk that builds a global, and integer widths other than 8, 16, 32 and 64, for which the source builds no usable constant.
- `SerializeArguments`, the serialiser of a struct that is passed in registers: its stores are the flat case of `SerializeStruct`.
- Store size and allocation size are the same for every type modelled, so `getTypeStoreSize` and `getTypeAllocSize` are one function.
- Out-of-range reads of a raw image are excluded by preconditions, as they are undefined in the source.
- Growth and rehashing of the hash tables: a cache has a fixed number of buckets.
- `stripPointerCasts` before tracing: the arguments of interface calls are given stripped.
- Virtual-method deduction, regex export, `IndirectcallConstant`, `Devirtualize`, the text emission in `EmitCodes`.
- Function attributes and calling conventions of the wrapper; only parameter attributes are copied in the model.
- The image filter takes its mask and input as values, so they cannot overlap the output; the source relies on that without saying so.
- Overflow of 32-bit signed arithmetic in the quicksort's midpoint and in the dot product's indices.
- Alignment of the vector loads in the dot product.
- `RecastCalls.RecastScoped`: scoping is that of straight-line code, not dominance over a control-flow graph.
- `RecastCalls.Body.RecastCalls`: a recast call must pass as many arguments as its type has parameters, and a cast callee must be a cast of a function pointer; for other calls the source reads past the parameter list or fails a checked cast.
- The benchmark's own convolution, camera input and output, documentation scripts, Docker and CMake files, lit tests.

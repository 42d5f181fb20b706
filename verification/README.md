# A verified model of the libmu runtime kernel

libmu is a small Lisp: a compiler and an evaluator that run on hand-packed
64-bit tagged words and a bump-allocated, mark/sweep heap. This project models
that kernel in Dafny and proves what its parts promise each other. It has five
parts, each a few modules.

**Words and heap.** `Words` has the tag layout and the packed conses, bit by
bit. `HeapInfo` has the header words, `Walk` the chain of headers that the
iterator re-parses, `Mapped` the allocator as functions of the heap's contents
and `MappedHeap` the same as an object over an array, proved equal to them.
`WalkRuns` follows the walk over whole histories. The main results: no cons cell
is handed out twice between collections (`NoCellTwice`), the three ways of
counting space agree (`SpaceIsConserved`), the walk is the allocation history
(`WalkIsAllocationOrder`), and an allocation that fits succeeds
(`AllocationSucceeds`).

**Collector.** `Graph` and `Reach` define which words are followed and what is
reachable; `Collector` has one method per Gc function of the source, from the
type dispatch down to the mark bit. The main results: marking from the
namespaces marks exactly the reachable objects, the sweep puts exactly the
others on the free lists (`Gc`), and no later run hands out a reachable cell
(`ReachableCellsAreNotReused`). Marking terminates on every graph because the
marking function does (`Mark`). `Soundness` closes the circle: what the
collector asks of the heap holds of the empty heap and is kept by every cons,
every other object, every payload write and every collection (`RunsStayReady`).
`Survival` says it once more by the accessors alone, without the collector's own
idea of what to follow: whatever chains of car, cdr, symbol name, function form
and the like read from a root they read after any later run of allocations and
collections (`RootsReadTheSame`, `ListsReadTheSame`).

**Conses and lists.** `Conses` and `Lists`: lists of mixed packed and heap cells
refine sequences, keep their contents over every later run of allocations, take
exactly half the cells and are refused exactly when those are not left
(`ListRefinesSequence`, `ListsSurvive`, `PackedListLayout`, `ListFitsExactly`).
`Strings`: strings that live in a word are the sequences of up to seven bytes,
and slices, of a word by shift and mask or of a heap vector by address, are
slices of sequences and compose.

**Compiler and evaluator.** `Lisp`, `Evaluator` and `Compiler` give the data,
the evaluator over its stacks of frames, and the compiler over its `lexicals`,
as functions of their state; `Running` and `Compiling` are the same as objects
updated in place, proved equal to them. `Source` says what a form means without
compiling it, by passing environments. The main result is
`CompilationPreservesMeaning`: for every form whose lambdas are applied where
they are written, if it compiles then evaluating the code gives the value, the
exception, the failure, or the exhausted depth that the form means, at every
depth; `SessionsPreserveMeaning` says the same of whole sessions of top-level
forms, and `LaterFormsKeepMeaning` of sessions in which later forms call the
functions that earlier ones defined. `Independence` carries the part of the
proof about existing functions, `Simulation` the rest, `Worlds` shows that the
theorem's assumptions survive every compilation and that the restriction on
lambdas is needed. `Discipline` and `Closures` are about stacks over whole runs,
`Addresses` about lexical addresses, `RestArguments` about calls with a rest
parameter, `Calls` about what the natives that call back pass on
(`FuncallIsTheCall`, `HandlerGetsTheObject`). `Programs` needs no reference
semantics: it says from the text what families of programs compute when compiled
and run, such as which argument a symbol inside any number of lambdas is
(`InnermostArgumentIsReturned`). `Bounds` proves that no evaluation of compiled
code reads beyond a frame (`CompiledCodeStaysInBounds`). `Checks` tells from a
form alone whether compiling it succeeds, raises, stops or never returns, and
exactly which lambdas a failure leaves behind (`FormGoesAsChecked`).

**Reader, printer, namespaces.** `ReadTable`, `Reading`, `Printing` and
`Numerals` give the readtable, the reader, the printer and their numerals as
functions of text; `Streams` has the reader and the printer over streams with
push-back, proved equal to them. `RoundTrip` proves that reading undoes
printing, and says exactly for which strings, keywords, qualified symbols and
numbers. `Notation` says what the rest of the syntax reads as: signed,
hexadecimal and octal numerals, comments, vectors of every type, and unfinished
input; `Tokens` what every kind of name reads as. `Namespaces` has the symbol
tables and their hash-keyed caches, and proves that a symbol's value is the
first it was interned with (`ValueIsFirstGiven`).

## What the code does differently from what it says

- `heap/mapped.h:87-89` subtracts 1 from a byte offset where a header is meant.
  As written the address is nine bytes past the header (`HeaderAddressIsOffByNine`).
  The model uses the header just below the object.
- A fixnum has 59 bits, but the number reader tests only two of the top six bits of
  a 64-bit value: it accepts and wraps numbers that do not fit
  (`NumberReadingIsExact`), and reads some of twenty digits as small ones
  (`WideNumbersReadSmall`).
- The header of an object of 64 KB or more records a smaller size, and the walk
  loses its way there (`BumpWalkIsExact`).
- A body that fails to compile leaves its lambda on `lexicals`, so that its
  parameters go on resolving lexically at top level. It happens exactly when the
  first failing part of a form lies inside a lambda with parameters (`LeakIsExact`,
  `LeakedParametersResolve`).
- A parameter named env:lex-ref makes the compiler recurse for ever as soon as
  any parameter is mentioned (`SymbolFormIsTheRecursion`, `EndIsDecided`).
- Frame ids are keywords, which hold seven characters: the compiler stops at the
  lambda numbered 10000000 (`DefLambda`).
- Catching an exception restores the control stack but not the lexical stacks. What
  stays there points to the variables of calls that are gone
  (`CaughtExceptionLeavesFrames`), and a closure call that raises leaves its
  captured frames behind (`RaisingClosureCallLeavesFrames`).
- A lambda that outlives the call that made it dies on its first free parameter
  (`EscapingClosureLosesItsFrame`).
- Strings are printed without escapes, so one with a double quote, a backslash or
  a closing brace does not read back (`StringRoundTripIsExact`), though the reader
  would take it with escapes (`EscapedStringReads`); a symbol interned
  without a namespace never reads back as one (`NoBareSymbolComesBack`).
- The readtable has no entry for the capital letter U: a name with one stops the
  program (`UnmappedCharacterStops`).
- Writing a symbol asks for an extern of its name first, so an intern symbol with an
  extern namesake is printed as that and reads back as that (`NamesakeReadsBack`).
  `core::funcall`, which src/core/eval.l interns in both scopes, is printed as
  `core:funcall` (`FuncallComesBackExtern`).
- Registering the environment's unnamed namespace would empty a cache in use
  (`AddSpaceKeepsAgreement`).

## Conventions

Heap positions are word indexes. Evaluation is given a depth, spent by calls of
lambdas and by natives that call back; a theorem for every depth is a theorem
about every finite run and about running for ever. A failed assertion, an
uncaught C++ exception and undefined behaviour are the outcome `Abort` or its
like in each module; the program is taken to be built with its assertions.
Reading a frame keeps two kinds of undefined behaviour apart: `Stale`, through
an entry whose call has been left, and `OutOfRange`, beyond a frame's arguments.
Exceptions are kept as where they were raised and what about; the offending
object is kept by the evaluator and the compiler and dropped by the reader.

## Model

| member | source | states |
|---|---|---|
| Words.TagAtRoundTrip | src/libmu/core/type.h:117-133 | an indirect tag gives back the class and the position it was made from |
| Words.HeaderAddressIsOffByNine | src/libmu/heap/mapped.h:87-89 | the header address as written lies nine bytes past the header and is never aligned |
| Words.PackRoundTrip | src/libmu/type/cons.cc:39-80 | car and cdr of a packed word are the two tags that were accepted for packing |
| Words.PackableIsExact | src/libmu/type/cons.cc:39-57 | a word is accepted for packing exactly when it survives in the cdr half |
| Words.NoPackedInPacked | src/libmu/type/cons.cc:60-80 | opening any packed word reaches two words that are not packed |
| Words.NotPackable | src/libmu/type/cons.cc:39-57 | the empty list and packed conses are never packed into a cons |
| Words.SmallHeapTagsPack | src/libmu/core/env.cc:237 | every tag into a heap of 4 MB is packable |
| Words.FixnumRoundTrip | src/libmu/type/fixnum.h:37-70 | a 64-bit integer survives as a fixnum exactly when its top six bits agree |
| HeapInfo.MakeHeapInfoFields | src/libmu/core/heap.h:67-98 | a fresh header reads back its class, no marks, and the size its 16-bit parameter kept |
| HeapInfo.SizeIsExact | src/libmu/core/heap.h:67-74 | a header records a size faithfully exactly when the object is smaller than 64 KB |
| HeapInfo.SetRefBitsFields | src/libmu/core/heap.h:81-98 | rewriting the reference bits changes no other field |
| Walk.SameSizesSameWalk | src/libmu/heap/mapped.h:124-159 | the walk depends only on the sizes of the headers it visits |
| Walk.WalkGrows | src/libmu/heap/mapped.h:124-159 | an object allocated at the barrier is visited last and changes nothing before it |
| Walk.NoHeaderInside | src/libmu/heap/mapped.h:124-159 | no position inside an object is visited as a header |
| WalkRuns.WalkIsAllocationOrder | src/libmu/heap/heap-mapped.cc:100-117 | over any run of allocations, payload writes, marks and clears the walk visits the old headers and then the allocated ones in order, with classes and sizes unchanged |
| Mapped.BumpWalk | src/libmu/heap/heap-mapped.cc:100-117 | a successful allocation adds one header, of the class and size asked for, at the end of the walk |
| Mapped.BumpWalkIsExact | src/libmu/heap/heap-mapped.cc:100-117 | the walk finds a newly allocated object, and it alone, exactly when the object is smaller than 64 KB |
| Mapped.BumpValid | src/libmu/heap/heap-mapped.cc:100-117 | allocation keeps the heap's invariant: a parsed chain, class counts that agree with the headers, sound free lists |
| Mapped.ReuseValid | src/libmu/core/heap.cc:73-85 | allocation from a free list keeps that invariant |
| Mapped.SpaceIsConserved | src/libmu/heap/heap-mapped.cc:119-140 | room by class, room by object and the bytes below the barrier are one number, at most the heap's size |
| Mapped.CellIsFresh | src/libmu/core/heap.cc:73-85 | a cons allocation returns a whole cell that was not in use, puts exactly it in use, and leaves every header |
| Mapped.AllocationSucceeds | src/libmu/heap/heap-mapped.cc:100-117 | an allocation is refused exactly when what is allocated, the header and the payload rounded up to words exceed the heap; with reuse, exactly when the class has no free object either |
| Mapped.StoreKeepsWalk | src/libmu/heap/mapped.h:124-159 | writing payload words changes neither the walk nor the cells in use |
| Mapped.StepInvariant | src/libmu/core/heap.cc:73-85 | every operation between collections keeps the invariant and brings into use exactly the cell it returns |
| Mapped.NoCellTwice | src/libmu/core/heap.cc:47-85 | over any run between two collections the cells handed out are distinct, were not in use, are whole conses, and are exactly what has come into use |
| Mapped.SetMark | src/libmu/core/heap.cc:53-57 | setting or clearing one header's bits marks or unmarks exactly that object and keeps the walk |
| Mapped.SweptIsFreeOk | src/libmu/core/heap.cc:59-65 | lists filled by a sweep hold unmarked headers of their class, each once |
| MappedHeap.HeapObject.constructor | src/libmu/heap/heap-mapped.cc:143-159 | a new heap is valid and empty |
| MappedHeap.HeapObject.Alloc | src/libmu/heap/heap-mapped.cc:100-117 | the allocator in place has the result and the new heap of its specification, and refuses exactly when header and payload, in words, exceed what is left |
| MappedHeap.HeapObject.GcAlloc | src/libmu/core/heap.cc:73-85 | allocation with reuse in place has the result and the new heap of its specification, and refuses exactly when the class has no free object either |
| MappedHeap.HeapObject.Put | src/libmu/core/heap.h:49-53 | a payload write in place is the specified store and keeps the invariant |
| MappedHeap.HeapObject.Next | src/libmu/heap/mapped.h:124-159 | one step of the iterator goes to the next header of the walk, or stops at the barrier |
| MappedHeap.HeapObject.Room | src/libmu/heap/heap-mapped.cc:119-128 | the loop over all headers counts the room of the walk, which is the allocated bytes |
| MappedHeap.HeapObject.RoomOf | src/libmu/heap/heap-mapped.cc:131-140 | the loop over one class counts that class's room |
| MappedHeap.HeapObject.GcMark | src/libmu/core/heap.cc:53-57 | marks exactly one more object and changes nothing but its bits |
| MappedHeap.HeapObject.Gc | src/libmu/core/heap.cc:47-51 | no object is marked, the free lists are empty, and nothing else has changed |
| MappedHeap.HeapObject.GcSweep | src/libmu/core/heap.cc:59-65 | each class's free list is its unmarked objects in walk order; memory is unchanged |
| Graph.Mark | src/libmu/core/env.cc:211-229 | marking terminates on every graph, cycles included, only adds marks, and marks only objects |
| Reach.MarkCloses | src/libmu/type/cons.cc:140-152 | marking from a word marks what it designates and leaves no newly marked object with an unmarked successor |
| Reach.MarkIsSound | src/libmu/core/env.cc:211-229 | only objects reachable from the word are marked |
| Reach.MarkingIsReachability | src/libmu/env/env-env.cc:113-123 | marking from the roots marks an object if and only if it is reachable from them |
| Collector.IsGcMarked | src/libmu/core/heap.cc:67-71 | the header's bits say whether the object is in the marked set |
| Collector.GcMark | src/libmu/core/heap.cc:53-57 | marks the object and leaves its followed fields to be marked |
| Collector.EnvGc | src/libmu/core/env.cc:211-229 | the dispatch marks in the heap exactly what marking from the word marks in the graph |
| Collector.ConsGc | src/libmu/type/cons.cc:140-152 | the same for conses, car then cdr, packed ones without a mark of their own |
| Collector.SymbolGc | src/libmu/type/symbol.cc:80-92 | the same for symbols, through name and value |
| Collector.FunctionGc | src/libmu/type/function.cc:40-50 | the same for functions |
| Collector.ExceptionGc | src/libmu/type/exception.cc:45-55 | the same for exceptions |
| Collector.NamespaceGc | src/libmu/type/namespace.cc:104-116 | the same for namespaces, through their name, import and symbol lists |
| Collector.VectorGc | src/libmu/type/vector.cc:302-330 | the same for vectors, following those of type :t |
| Collector.VectorElements | src/libmu/type/vector.cc:319-323 | the loop over a vector's elements marks from each in turn |
| Collector.Gc | src/libmu/env/env-env.cc:113-123 | after a collection the marked objects are exactly the reachable ones, the free lists exactly the others, only marks and free lists have changed, whatever accessors read from a namespace they still read, and the heap and the namespaces can be collected again |
| Collector.ReachableCellsAreNotReused | src/libmu/core/heap.cc:59-85 | no cell handed out by any later run was reachable, and every reachable cell is still in use |
| Soundness.MarksKeepSound | src/libmu/env/env-env.cc:113-123 | a heap that differs in marks and free lists only is as sound as before |
| Soundness.WriteKeepsReady | src/libmu/core/heap.h:49-53 | writing a traceable word to any payload but a vector's layout keeps the heap ready for collection |
| Soundness.ConsKeepsReady | src/libmu/type/cons.cc:89-118 | a cons of traceable words is traceable and keeps the heap ready, packed, in a reused cell or in a new one |
| Soundness.PlaceKeepsReady | src/libmu/heap/heap-mapped.cc:100-117 | so does any other object whose layout suits its class |
| Soundness.VectorWordsSuit | src/libmu/type/vector.cc:257-279 | the layout Vector::Heap writes for a :t vector describes its own elements |
| Soundness.RunsStayReady | src/libmu/env/env-env.cc:113-123 | over any run of allocations, writes and collections every heap can be collected, traceable words stay traceable, and marking is reachability at every point |
| Survival.ReadIsHeld | src/libmu/type/cons.cc:140-152 | what any accessor of a cons, symbol, function, exception, namespace or :t vector reads from a word whose objects are reachable leads to reachable objects only |
| Survival.FollowSurvives | src/libmu/env/env-env.cc:113-123 | what a chain of accessors reads from a reachable word it reads after the collection and after whatever only adds objects and reuses free cells, and nothing on the way is free |
| Survival.CollectionKeepsHeld | src/libmu/env/env-env.cc:113-123 | so it is for every word and every chain at once, the clause `Collector.Gc` ensures |
| Survival.ListSurvives | src/libmu/type/cons.cc:121-152 | a list that starts at a reachable word is the same list, cell by cell, after a collection and whatever later allocation |
| Survival.RootsReadTheSame | src/libmu/core/heap.cc:47-85 | at every point of any run of allocations and collections, all chains of accessors from a root read what they read at the start |
| Survival.ListsReadTheSame | src/libmu/core/heap.cc:47-85 | at every point of such a run a list reached from a root has the elements and the tail it had |
| Conses.ConsRefinesPair | src/libmu/type/cons.cc:89-137 | a new cons gives back its car and cdr, is packed exactly when both fit, otherwise takes one fresh cell, and disturbs nothing |
| Conses.ListRefinesSequence | src/libmu/type/cons.cc:155-166 | the list of v iterates as v and ends in :nil, for any mix of packed and heap cells |
| Conses.ListsSurvive | src/libmu/type/cons.h:74-109 | a list iterates the same after any later run of allocations |
| Conses.HalfTheCells | src/libmu/type/cons.cc:155-166 | packable elements pair up: every second cons is packed |
| Conses.PackedListLayout | src/libmu/type/cons.cc:89-118 | n packable elements bring exactly ceil(n/2) more cells into use |
| Conses.ConsTakesOne | src/libmu/type/cons.cc:89-118 | a cons succeeds exactly when it is packed or a cell is left, free or unallocated, and takes one of them |
| Conses.ListFits | src/libmu/type/cons.cc:155-166 | a list of v is made whenever |v| cells are left |
| Conses.ListFitsExactly | src/libmu/type/cons.cc:155-166 | in heaps of up to 4 MB, exactly when the cells it needs, one per run of two for packable elements, are left |
| Lists.LoadCar | src/libmu/type/cons.cc:123-129 | reading a car from memory, packed or not |
| Lists.LoadCdr | src/libmu/type/cons.cc:131-137 | reading a cdr from memory, packed or not |
| Lists.MakeCons | src/libmu/type/cons.cc:89-118 | making a cons in place has the result and the new heap of its specification, and fails exactly when it cannot be packed and no cell is left |
| Lists.MakeList | src/libmu/type/cons.cc:155-166 | building a list in place from the back gives the specified heap, a list of the elements, disturbs nothing, and succeeds whenever enough cells are left |
| Lists.MakeListDot | src/libmu/type/cons.cc:169-181 | the last of two or more values becomes the dotted tail; no values make :nil and allocate nothing; it succeeds whenever enough cells are left |
| Lists.Length | src/libmu/type/cons.cc:196-212 | the number of elements, or the error for a dotted list |
| Lists.Nth | src/libmu/type/cons.cc:184-193 | the element at an index, or :nil past the end |
| Lisp.NthIsElement | src/libmu/type/cons.cc:184-193 | the compiler's and evaluator's list access gives the element at the index, or :nil past the end |
| Strings.StringSurvives | src/libmu/type/vector.h:50-64 | a string of up to seven bytes survives in a direct word |
| Strings.WordSurvives | src/libmu/core/type.h:64-76 | and a direct string is the word of its bytes |
| Strings.SliceWordIsSlice | src/libmu/type/vector.cc:72-95 | slicing a word by shift and mask gives the word of exactly the bytes asked for, and raises exactly when they are not there |
| Strings.HeapSliceIsSlice | src/libmu/type/vector.cc:97-138 | a heap slice has its parent's elements from the offset on, in any memory, so it shares later writes; it raises exactly when they are not there |
| Strings.SlicesCompose | src/libmu/type/vector.cc:97-138 | a slice of a heap slice is one slice of the parent, and raises exactly when it leaves the first |
| Strings.WordSlicesCompose | src/libmu/type/vector.cc:89-95 | the same for slices of words |
| Discipline.FuncallIsDisciplined | src/libmu/core/eval.cc:53-96 | every call, whatever it evaluates or raises, keeps the entry stacks below what it leaves, which leads nowhere; a value restores the control stack, and without caught exceptions every lexical stack; the recorded maximum bounds the depth |
| Discipline.EvalIsDisciplined | src/libmu/core/eval.cc:99-148 | the same for every evaluation of any form in any context |
| Discipline.NativeIsDisciplined | src/libmu/mu/mu-exception.cc:67-92 | the same for natives, catching included |
| Discipline.WithoutCatchingStacksAreRestored | src/libmu/core/eval.cc:53-96 | where no function is the native that catches, every evaluation that returns restores every stack |
| Discipline.CaughtExceptionLeavesFrames | src/libmu/mu/mu-exception.cc:83-85 | a run that catches returns a value with an entry of the raising lambda, whose call is gone, still on its lexical stack |
| Closures.ClosureCallRestoresStacks | src/core/eval.l:11-24 | a closure call that returns restores the control stack and, if nothing was caught, every lexical stack |
| Closures.RaisingClosureCallLeavesFrames | src/core/eval.l:8-24 | a closure call that raises leaves at least its captured frames on each lexical stack |
| Closures.CapturedFramesAreOnTop | src/core/eval.l:11-24 | during the call each lexical stack has on top the captured frames of its own id, in order |
| Closures.ClosureReadsCapturedFrame | src/core/eval.l:11-24 | a closure whose lambda refers to another one's parameter has the argument in the frame captured last for that one, whatever calls are on the stack; the bare function fails when none is |
| Running.ExecutionContext.DynamicContextPush | src/libmu/core/context.h:52-60 | pushes the frame and records the deepest stack |
| Running.ExecutionContext.DynamicContextPop | src/libmu/core/context.h:62-66 | drops the top frame |
| Running.ExecutionContext.LexicalContextPush | src/libmu/core/context.h:77 | pushes on the stack of one frame id only |
| Running.ExecutionContext.LexicalContextPop | src/libmu/core/context.h:79 | pops the stack of one frame id only |
| Running.ExecutionContext.MapLexicalContext | src/libmu/core/context.h:81-88 | the frame that `offset` further pops would bring to the top |
| Running.OffsetCountsCalls | src/libmu/core/context.h:77-88 | offset k is the k-th latest of the frames pushed for that id |
| Calls.CallFormCalls | src/libmu/core/eval.cc:99-148 | evaluating the call of a function on quoted objects calls it on those objects |
| Calls.CallNeedsItsArguments | src/libmu/core/eval.cc:57-64 | a call with another number of arguments than the arity raises, naming both, and pushes nothing |
| Calls.FuncallIsTheCall | src/libmu/mu/mu-function.cc:44-60 | mu:funcall of f and the list of vs has the outcome and the context of the call form of f on the quoted vs |
| Calls.FuncallOfOtherLists | src/libmu/mu/mu-function.cc:51-59 | a dotted tail is dropped, and what is no list raises a type error about it |
| Calls.HandlerGetsTheObject | src/libmu/mu/mu-exception.cc:67-92 | whatever object the thunk raises, the outcome is that of calling the handler on what raising it delivers, in the caller's context |
| Calls.NoHandlerWithoutException | src/libmu/mu/mu-exception.cc:67-92 | a thunk that returns a value is all that is run |
| Calls.WrongArgumentsAreNamed | src/libmu/mu/mu-exception.cc:67-78 | what a call of with-ex or funcall with a wrong argument raises is about the first one refused, the thunk before the handler, and nothing has been run |
| Running.ExecutionContext.ExpireFrame | src/libmu/core/eval.cc:66-83 | a lambda call that is left takes its frame with it: an entry that stays leads nowhere |
| Running.ExecutionContext.FrameReference | src/libmu/env/env-frame.cc:46-59 | the argument of the latest frame of an id, a type error, a missing frame, a frame that is gone, or an offset beyond its arguments |
| Running.ExecutionContext.WithException | src/libmu/mu/mu-exception.cc:67-92 | runs the thunk; on an exception cuts the control stack back to the mark and runs the handler |
| Running.ExecutionContext.CallNative | src/libmu/mu/mu-function.cc:44-60 | the native functions in place have the outcome and the context of their specification |
| Running.ExecutionContext.Funcall | src/libmu/core/eval.cc:53-96 | a call in place has the outcome and the context of its specification |
| Running.ExecutionContext.EvalForm | src/libmu/core/eval.cc:99-148 | evaluation in place has the outcome and the context of its specification |
| Compiling.Compile.MapLexicalSymbol | src/libmu/core/compile.cc:61-80 | the two loops find the address that resolution specifies |
| Compiling.Compile.ParseLambdaList | src/libmu/core/compile.cc:83-112 | the loop raises exactly the specified parameter errors |
| Compiling.Compile.CompileList | src/libmu/core/compile.cc:48-58 | compiling a list in place has the result and the compiler state of its specification |
| Compiling.Compile.DefLambda | src/libmu/core/compile.cc:115-145 | the same for lambdas: number, push, compile the body, patch it in, pop; numbers of eight digits stop the compiler |
| Compiling.Compile.DefConditional | src/libmu/core/compile.cc:158-176 | the same for conditionals |
| Compiling.Compile.CompileForm | src/libmu/core/compile.cc:190-247 | the same for every form |
| Addresses.ParseLambdaIsExact | src/libmu/core/compile.cc:83-112 | a parameter list is accepted exactly when it is distinct symbols, none of them keywords |
| Addresses.ParseLambdaNamesTheFirst | src/libmu/core/compile.cc:83-112 | what is raised is about the first parameter that is no symbol or is there already, and says which of the two |
| Addresses.LexicalAddressIsInnermost | src/libmu/core/compile.cc:61-80 | an address names the innermost enclosing lambda that lists the symbol and its first position there; no address means none lists it |
| Addresses.FrameIdsAreDistinct | src/libmu/core/compile.cc:187 | function objects of one compilation have different frame ids |
| Addresses.AddressesAreInBounds | src/libmu/core/compile.cc:61-80 | the address of a symbol is in range for every function that runs under its frame id |
| Addresses.ReferencesInRangeRead | src/libmu/env/env-frame.cc:46-59 | in any context whose frames fit, in the middle of a run too, a reference in range reads the latest frame's argument unless there is no frame or it is gone |
| Addresses.FramesKeepFitting | src/libmu/core/eval.cc:53-96 | whatever an evaluation does, frames fit afterwards if they did before |
| Addresses.CompiledFunctionsOwnTheirFrames | src/libmu/core/compile.cc:129-187 | every function a compilation makes has a frame id of its own and an arity that matches its parameters, and the next compilation starts from the same condition |
| Addresses.SymbolFormIsTheRecursion | src/libmu/core/compile.cc:221-240 | compiling a parameter's reference ends, with the specified code, exactly when env:lex-ref is not itself a parameter in scope |
| Addresses.FailedBodyLeaksScope | src/libmu/core/compile.cc:135-142 | a numbered lambda whose body fails to compile stays among the enclosing lambdas, and its parameters go on resolving; an unnumbered one never does |
| Addresses.SuccessRestoresScope | src/libmu/core/compile.cc:136-142 | a compilation that succeeds restores `lexicals` |
| Checks.FormGoesAsChecked | src/libmu/core/compile.cc:115-247 | compiling any form from any state goes as a check of the form says: success and the next frame number, or the failure of the first failing part and the lambdas around it |
| Checks.LeakIsExact | src/libmu/core/compile.cc:135-142 | `lexicals` grows by exactly the lambdas with parameters around the first failing part, and is unchanged exactly when there are none |
| Checks.LeakedParametersResolve | src/libmu/core/compile.cc:61-80 | the parameters of every leaked lambda resolve lexically from then on |
| Checks.EndIsDecided | src/libmu/core/compile.cc:190-247 | whether compiling succeeds, raises, stops or never returns is decided by the form and the enclosing parameter lists |
| Checks.CompilingReturns | src/libmu/core/compile.cc:221-240 | compiling returns on every form without env:lex-ref among its own or the enclosing parameters |
| Checks.LambdaFormVerdict | src/libmu/core/compile.cc:83-145 | the verdict on any lambda form by its parameters and its body: distinct symbols, then the frame number, then each form of the body in order |
| Checks.LambdaFormCompiles | src/libmu/core/compile.cc:83-145 | a lambda form compiles exactly when its parameters are distinct symbols, its frame number fits and its body's forms compile within them |
| Checks.LambdaFormRaises | src/libmu/core/compile.cc:115-128 | a refused lambda form raises about its parameter list if that starts with :quote, else about its first parameter that offends, and nothing changes |
| Checks.CallLeaksLambda | src/libmu/core/compile.cc:135-142 | (f (:lambda (x) (:quote))), no lambda itself, leaks one |
| Checks.TestLeaksNothing | src/libmu/core/compile.cc:158-176 | (:if (:quote) 1 2) fails and leaks nothing |
| Checks.ArgumentLeaksNothing | src/libmu/core/compile.cc:205-212 | ((:lambda (x) x) (:quote)) fails and leaks nothing |
| Checks.LexRefParameterNeverReturns | src/libmu/core/compile.cc:221-240 | ((:lambda (env:lex-ref x) x) 1 2) never finishes compiling |
| Simulation.FormGrows | src/libmu/core/compile.cc:115-247 | compiling only adds function objects; success makes one frame id each, arities that match parameter lists, and restores `lexicals` |
| Simulation.LookupAgrees | src/libmu/core/compile.cc:61-80 | with matching stacks and scopes, the emitted reference reads the value that scoping gives, and symbols without an address are not bound |
| Simulation.BoundEnter | src/libmu/core/eval.cc:79-83 | entering a new lambda extends the match between enclosing lambdas, stacks and scopes |
| Simulation.LambdaSim | src/libmu/core/compile.cc:115-145 | calling a compiled lambda is evaluating its body in the extended scope |
| Simulation.IfSim | src/libmu/core/compile.cc:158-176 | a compiled conditional has the outcome of the chosen branch |
| Simulation.FormSim | src/libmu/core/compile.cc:190-247 | compiled code and source form have the same outcome in matching contexts |
| Simulation.CompilationPreservesMeaning | src/libmu/core/compile.cc:190-247 | for every form whose lambdas are applied in place, evaluating its code has exactly the outcome of direct evaluation, at every depth, and leaves the same frames |
| Sessions.SessionSim | src/libmu/core/compile.cc:190-247 | the rest of a session keeps step with its source, whatever was compiled before |
| Sessions.SessionsPreserveMeaning | src/libmu/core/eval.cc:99-148 | compiling and evaluating forms one after another has, form by form, the outcomes of evaluating the sources directly in the functions there were at the start |
| Definitions.EnactKeepsOpen | src/libmu/core/compile.cc:190-247 | compiling, evaluating and interning one form leaves a session in which the next can be |
| Definitions.LaterFormsKeepMeaning | src/libmu/core/eval.cc:99-148 | at every point of a session the code of the next form has the outcome of direct evaluation in the functions and symbol values there are by then, the session's own definitions included |
| Definitions.DefinitionMeansBody | src/libmu/core/compile.cc:115-145 | calling the function a definition makes is evaluating the lambda's body with its parameters bound |
| Definitions.DefinedSymbolEvaluates | src/libmu/type/namespace.cc:153-154 | after a definition the symbol evaluates to what the form did, unless it was bound before, and every other symbol to what it did |
| Programs.InnermostArgumentIsReturned | src/libmu/core/compile.cc:61-145 | a symbol inside any number of lambdas applied to quoted objects, compiled and run, is the argument at its position in the innermost parameter list that has it |
| Programs.FreeSymbolIsGlobal | src/libmu/core/compile.cc:61-80 | one that no parameter list has is its global value, or raises as unbound |
| Programs.LastValueIsReturned | src/libmu/core/eval.cc:79-83 | a lambda applied to its arguments has the value of its last form, and :nil without one |
| Programs.OneBranchIsRun | src/libmu/core/compile.cc:158-176 | a conditional that compiles has the value of its first branch for every test but :nil and then of its second, whatever the other branch would do |
| Programs.QuoteMeans | src/libmu/core/compile.cc:147-155 | a quote form compiles exactly when it has one part, and evaluates to that part |
| Programs.IfNeedsThree | src/libmu/core/compile.cc:158-165 | a conditional without exactly three parts raises an arity error about the form |
| Programs.OnlyFunctionsAreCalled | src/libmu/core/compile.cc:190-247 | no form compiles whose head is other than a symbol, a function, one of the three keywords or a lambda form |
| Independence.FuncallAlike | src/libmu/core/eval.cc:53-96 | calling a function that existed before a compilation has the same outcome with and without the new lambdas' frames, and does not touch them |
| Independence.EvalAlike | src/libmu/core/eval.cc:99-148 | the same for evaluating code that does not refer to the new frames |
| Worlds.FormCodeOk | src/libmu/core/compile.cc:190-247 | every compiled form, escaping lambdas included, refers only to frame ids handed out so far |
| Worlds.CompilationKeepsWorld | src/libmu/core/compile.cc:190-247 | what the theorem assumes of existing functions holds again after every compilation |
| Bounds.CompilationStaysInRange | src/libmu/core/compile.cc:190-247 | every reference compiling emits, and every one there was, is in range for the functions there are afterwards |
| Bounds.EvalStaysIn | src/libmu/core/eval.cc:99-148 | evaluating code whose references are in range, from any context whose frames fit, never reads beyond a frame and leaves such a context |
| Bounds.CompiledCodeStaysInBounds | src/libmu/core/eval.cc:53-96 | no evaluation of compiled code from such a context reads beyond a frame, at any depth |
| Worlds.EscapingClosureLosesItsFrame | src/libmu/env/env-frame.cc:46-59 | a form with an escaping lambda compiles and fails on a popped frame |
| RestArguments.RestCallSplits | src/core/eval.l:30-45 | the required arguments are passed as they are, followed by the list of the others; with too few, by the empty list |
| RestArguments.RestCallArity | src/libmu/core/eval.cc:57-64 | the call of a clone with one more parameter is refused exactly when fewer than the required arguments are given |
| RestArguments.DropRDrops | src/core/lists.l:71-86 | core:dropr of a length minus n is the first n elements |
| RestArguments.FoldRAppends | src/core/lists.l:44-51 | core::append by core:foldr is concatenation |
| Numerals.StoullOfText | src/libmu/core/read.cc:88-96 | reading decimal text gives the two's complement of every integer of less than 64 bits and refuses every other |
| Numerals.Wrap59 | src/libmu/type/fixnum.h:57-60 | a 64-bit value kept as a fixnum is the value modulo 2^59, as a signed number |
| Numerals.DecimalInjective | src/libmu/core/compile.cc:187 | different frame numbers have different names |
| Notation.StoullOfNumeral | src/libmu/core/read.cc:88-96 | a numeral with any sign and any prefix its radix allows reads as its value's 64-bit form |
| Notation.NumeralReads | src/libmu/core/read.cc:252-272 | decimal, 0x hexadecimal and 0 octal numerals of fixnums, with either sign or none, read as their values |
| Notation.RadixReads | src/libmu/core/read.cc:115-138 | what #x and #d read: the number, wrapped around 59 bits, if its two top bits agree, and a range error otherwise |
| Notation.SharpRadixReads | src/libmu/core/read.cc:192-248 | every fixnum reads back from its text in base 16 after #x and in base 10 after #d |
| Notation.BlockEndsAtFirst | src/libmu/core/read.cc:226-239 | a block comment ends at the first bar and sharpsign, and nowhere else |
| Notation.CommentReads | src/libmu/core/read.cc:226-244 | reading a block comment and a rest is reading the rest |
| Notation.CharVectorReads | src/libmu/type/vector.cc:141-176 | #(:char ..) of characters reads as the string of them |
| Notation.ByteVectorWraps | src/libmu/type/vector.cc:141-176 | #(:byte ..) takes fixnums below 256, negative ones wrapped, and refuses all others |
| Notation.VectorReads | src/libmu/type/vector.cc:141-176 | a vector of readable elements is read exactly when its type is one of the five and all elements fit it; an element that does not fit raises, another type stops the program |
| Reading.SkipWhitespace | src/libmu/core/read.cc:143-161 | skipping stops at a character and never goes back |
| RoundTrip.SkipsBlanksOnly | src/libmu/core/read.cc:143-161 | what is skipped is white space and line comments, all there was |
| Reading.ReadAtom | src/libmu/core/read.cc:64-85 | an atom and what follows it are the text it was read from; atoms are never empty |
| RoundTrip.AtomIsLongest | src/libmu/core/read.cc:64-85 | an atom is the longest run of constituents, within the length limit |
| Reading.Find | src/libmu/type/symbol.cc:40-62 | the first occurrence of the separator, or none anywhere |
| Reading.Read | src/libmu/core/read.cc:164-274 | on every text the reader ends, and an object costs at least one character unless none was left |
| Reading.ReadAt | src/libmu/core/read.cc:170-274 | an object read at a character consumes it |
| Reading.ReadList | src/libmu/type/cons.cc:239-257 | list reading ends and never goes back |
| Reading.ReadElements | src/libmu/type/cons.cc:256-283 | the element loop ends: each turn consumes text |
| Reading.ReadVector | src/libmu/type/vector.cc:333-342 | vector reading ends and never goes back |
| Reading.ScanString | src/libmu/type/vector.cc:345-372 | string reading ends and consumes text |
| Streams.InputStream.ReadChar | src/libmu/type/stream.cc:129-136 | the next character, or end of input |
| Streams.InputStream.UnReadChar | src/libmu/type/stream.cc:109-117 | puts the last character back in front of the rest |
| Streams.ReadWSUntilEof | src/libmu/core/read.cc:143-161 | the nested loops skip exactly the specified white space and comments |
| Streams.ReadAtomFrom | src/libmu/core/read.cc:64-85 | the loop reads the specified atom, or its errors, and leaves the specified rest |
| Streams.ReadRadix | src/libmu/core/read.cc:115-138 | the same for radixed numbers |
| Streams.ReadStringFrom | src/libmu/type/vector.cc:345-372 | the same for strings, escapes included |
| Streams.SkipBlockComment | src/libmu/core/read.cc:226-244 | the loop with push-back finds the end of a block comment if there is one |
| Streams.ReadTokenFrom | src/libmu/core/read.cc:252-272 | the same for numbers and symbols |
| Streams.ReadObject | src/libmu/core/read.cc:164-274 | the recursive reader with push-back refines the reading function |
| Streams.ReadSharpFrom | src/libmu/core/read.cc:192-248 | the same for the sharpsign forms |
| Streams.ReadListFrom | src/libmu/type/cons.cc:239-283 | the same for lists and dotted lists |
| Streams.ReadVectorFrom | src/libmu/type/vector.cc:333-342 | the same for vectors |
| Streams.OutputStream.WriteString | src/libmu/core/print.cc:66-78 | the byte loop appends the string |
| Streams.OutputStream.Write | src/libmu/core/print.cc:81-97 | writing an object appends its printed text |
| Streams.OutputStream.WriteSymbol | src/libmu/type/symbol.cc:121-148 | the same for symbols, whose colons depend on what their namespace lists |
| Streams.OutputStream.WriteCons | src/libmu/type/cons.cc:215-236 | the loop with separators and dotted tail appends the list's text |
| Streams.OutputStream.WriteText | src/libmu/type/vector.cc:180-191 | the same for strings |
| Streams.OutputStream.WriteItems | src/libmu/type/vector.cc:228-239 | the same for :t vectors |
| Streams.OutputStream.WriteNumbers | src/libmu/type/vector.cc:192-215 | the same for fixnum and byte vectors |
| RoundTrip.ReadBack | src/libmu/core/read.cc:164-274 | reading the escaped printout of any readable object, followed by any delimiting text, gives the object and leaves that text |
| RoundTrip.QuoteReads | src/libmu/core/read.cc:183-190 | a quote and the printout of a readable symbol or pair read as the list of :quote and it; before any other readable object the quote vanishes |
| Notation.EscapesAreMarks | src/libmu/type/vector.cc:180-191 | without escapes a string is its text, a character itself and a symbol its name; escapes only add the marks in front and behind |
| Notation.PlainPrintsTheSame | src/libmu/core/print.cc:81-97 | an object without symbols, strings and characters in it prints the same with and without escapes |
| Notation.ListText | src/libmu/type/cons.cc:215-236 | the text of a list is its elements' texts with single spaces, a dotted tail only if it has one, between parentheses |
| Notation.EscapedStringReads | src/libmu/type/vector.cc:345-372 | every string that is short enough reads from its text with escapes |
| Notation.OpenStringRaises | src/libmu/type/vector.cc:358-368 | a string that is not closed raises |
| Notation.OpenListRaises | src/libmu/type/cons.cc:239-283 | a list that is not closed raises, after any elements |
| Notation.CloseAloneRaises | src/libmu/core/read.cc:164-182 | a closing parenthesis alone raises |
| RoundTrip.FixBack | src/libmu/type/fixnum.cc:32-40 | fixnums read back |
| RoundTrip.NumberReadingIsExact | src/libmu/core/read.cc:88-111 | for every integer, what its decimal text reads as: it itself exactly when it has 59 bits; wider ones wrap or are refused as stated |
| RoundTrip.WideNumbersReadSmall | src/libmu/core/read.cc:88-111 | the text of 2^64 - n reads as -n, that of its negative as n |
| Tokens.NameReads | src/libmu/type/symbol.cc:151-182 | a name without a colon and without a leading numeral is a symbol without a namespace |
| Tokens.KeywordReads | src/libmu/type/symbol.cc:159-168 | a colon and a name are the keyword if the name has one to seven characters, and raise otherwise |
| Tokens.QualifiedNameReads | src/libmu/type/symbol.cc:40-62 | a qualified name is the extern or intern symbol of a namespace there is, and raises for any other |
| Tokens.DigitsThenMoreReads | src/libmu/core/read.cc:88-111 | digits with something after them are a float or a name, never a fixnum, and raise if the digits alone need more than 64 bits |
| Tokens.UninternedReads | src/libmu/core/read.cc:211-225 | #: and a name without a colon read as an uninterned symbol, with one they raise |
| Tokens.UninternedNumbersRaise | src/libmu/core/read.cc:211-218 | #: and the text of a fixnum raise |
| Tokens.SharpNeedsSyntax | src/libmu/core/read.cc:192-248 | after a sharpsign every character but x, d and four syntax characters raises |
| Tokens.UnmappedCharacterStops | src/libmu/core/read.cc:64-85 | a character the readtable does not map, in or after an atom, stops the program |
| Tokens.DotFirstStops | src/libmu/type/cons.cc:169-181 | a dotted list with nothing before the dot stops the program |
| Tokens.DotNeedsTheEnd | src/libmu/type/cons.cc:259-269 | a second object after the one behind the dot raises, after any elements |
| Tokens.NothingReadsAsNil | src/libmu/core/read.cc:164-170 | text with nothing but white space and comments in it reads as :nil |
| Tokens.LongAtomsRaise | src/libmu/core/read.cc:64-85 | an atom of more than 1024 characters raises, and the character that was too much is gone |
| Tokens.VectorNeedsKeyword | src/libmu/type/vector.cc:333-342 | a vector whose first object is readable and no keyword raises |
| Tokens.SharpAtTheEnd | src/libmu/core/read.cc:192-208 | at the end of the input a sharpsign raises, and a sharpsign and backslash read as :nil |
| Tokens.OpenBlockRaises | src/libmu/core/read.cc:226-242 | a block comment that is not closed raises |
| RoundTrip.KeyNeedsRoom | src/libmu/type/symbol.cc:160-170 | a keyword reads back exactly when it has one to seven constituent characters |
| RoundTrip.SymBack | src/libmu/type/symbol.cc:121-182 | qualified symbols that are listed, extern or without an extern namesake, and whose text is a symbol's, read back |
| RoundTrip.SymbolRoundTripIsExact | src/libmu/type/symbol.cc:121-182 | and no others do: the condition is exact for every qualified symbol |
| RoundTrip.NamesakeReadsBack | src/libmu/type/symbol.cc:132-143 | an intern symbol with an extern namesake comes back as the namesake |
| RoundTrip.FuncallComesBackExtern | src/core/eval.l:26-30 | core::funcall is printed as core:funcall and comes back as that |
| RoundTrip.BareSymbolsComeBackFresh | src/libmu/type/symbol.cc:126-131 | a symbol interned without a namespace reads back as an uninterned one |
| RoundTrip.NoBareSymbolComesBack | src/libmu/type/symbol.cc:126-131 | no printout of a symbol without a namespace, whatever its name, reads as one |
| RoundTrip.StringRoundTripIsExact | src/libmu/type/vector.cc:180-191 | a string reads back exactly when it is short enough and has no double quote, backslash or closing brace |
| RoundTrip.ElementsBack | src/libmu/type/cons.cc:215-283 | the element loop reads back the printed elements and tail of any readable list |
| RoundTrip.VecTBack | src/libmu/type/vector.cc:228-239 | :t vectors read back |
| RoundTrip.VecNumBack | src/libmu/type/vector.cc:192-215 | fixnum and byte vectors read back |
| Namespaces.ComputeHashId | src/libmu/type/namespace.cc:36-51 | the byte loop computes the specified hash |
| Namespaces.InitialOk | src/libmu/core/env.cc:242-257 | the environment starts with caches that agree with its lists |
| Namespaces.MapIsExact | src/libmu/type/namespace.cc:67-101 | a lookup hits the one listed symbol of that name, misses when no listed symbol has its hash, and throws exactly when one of another name has |
| Namespaces.MapFindsListed | src/libmu/type/namespace.cc:67-101 | without collisions a name is found exactly when it is listed |
| Namespaces.InternKeepsAgreement | src/libmu/type/namespace.cc:129-157 | interning keeps caches and lists in agreement, never reaches the cache's own throw, returns a symbol of that name whose value is its old one if it was bound and the given one otherwise, and changes no other symbol |
| Namespaces.InternAgainIsTheSame | src/libmu/type/namespace.cc:129-157 | interning a name again returns the same symbol |
| Namespaces.InternIsLocal | src/libmu/type/namespace.cc:129-157 | interning a name changes no lookup of another name, scope or namespace |
| Namespaces.ValueIsFirstGiven | src/libmu/type/namespace.cc:129-157 | over any run the value of a symbol is what it had, or else the first value it was interned with |
| Namespaces.SymbolsAreAtHome | src/libmu/type/namespace.cc:129-157 | over any run every listed symbol was interned for the namespace that lists it, or for none if that is the unnamed one |
| Namespaces.AddSpaceKeepsAgreement | src/libmu/core/env.cc:198-208 | registering keeps agreement exactly when the name is taken or nothing is listed |
| Namespaces.RunsKeepAgreementAndValues | src/libmu/type/namespace.cc:129-157 | over any run caches agree with lists and a bound symbol never changes |
| Namespaces.ReachableStatesAgree | src/libmu/core/env.cc:232-257 | the agreement holds in every state reached from the initial one |
| Namespaces.Environment.MakeNamespace | src/libmu/type/namespace.cc:180-199 | a new namespace is empty and has no cache |
| Namespaces.Environment.AddNamespace | src/libmu/core/env.cc:198-208 | registering in place has the new state of its specification |
| Namespaces.Environment.MapNamespace | src/libmu/core/env.cc:188-195 | in every reachable state the one cached namespace of that name, other than the unnamed one; none exactly when there is no such namespace |
| Namespaces.RegisteredForGood | src/libmu/core/env.cc:188-208 | the first namespace registered under a name is what the name maps to ever after |
| Namespaces.NewNamespaceIsFound | src/libmu/core/env.cc:188-208 | a namespace made and registered under a free name is found by that name ever after |
| Namespaces.Environment.MapSymbol | src/libmu/type/namespace.cc:67-101 | lookup in place has the specified result |
| Namespaces.Environment.AddToCache | src/libmu/core/nscache.h:83-98 | adds one entry, or throws and changes nothing when the key is there |
| Namespaces.Environment.InternSymbol | src/libmu/type/namespace.cc:129-157 | interning in place has the result and the new state of its specification; in an agreeing state the symbol returned is bound as said above |

## Left out

- Collector.Gc: requires a heap whose words are well-formed tags to well-laid-out objects, as `Soundness.RunsStayReady` provides for the allocations modelled; frames are not roots of the source's collector, so a collection during an evaluation is not covered, and relocation bits and the heap image are not modelled.
- Collector.VectorGc: does not model :byte vectors, whose bytes the source iterates as tags.
- Collector.IsGcMarked: reads the header just below the object, where the address as written is nine bytes further (`Words.HeaderAddressIsOffByNine`).
- Collector.GcMark: writes that header.
- MappedHeap.HeapObject.GcMark: writes that header.
- MappedHeap.HeapObject.Gc: requires a heap with an allocation; on an empty one the source visits the zero word at its base.
- MappedHeap.HeapObject.GcSweep: the same; the source would put the base of an empty heap on the list of fixnums, which is never allocated from.
- MappedHeap.HeapObject.Next: requires an allocated header, as the loops that use it do.
- Mapped.BumpWalk: requires objects smaller than 64 KB; `Mapped.BumpWalkIsExact` says that it fails for all others.
- Mapped.BumpValid: requires the same, without which the walk it speaks of does not hold, and conses of 16 bytes, the only ones made.
- MappedHeap.HeapObject.Alloc: requires the same.
- MappedHeap.HeapObject.GcAlloc: requires the same.
- Survival.RootsReadTheSame: the runs allocate and collect; a write to what is read is left out, as it changes it. The namespace of a symbol is not read: the source's collector does not follow it.
- Soundness.PlaceKeepsReady: asks that every word of a symbol, function, exception or namespace be traceable, not only those followed.
- Simulation.CompilationPreservesMeaning: is about forms whose lambdas are applied where they are written; escaping and re-entrant closures see the latest activation of an enclosing lambda and do not follow static scope. Source forms do not mention env:lex-ref itself.
- Definitions.DefinitionMeansBody: is about calls before the function's own name is bound, so not about recursion through it.
- Running.ExecutionContext.CallNative: natives other than lex-ref, with-ex, funcall and raise are a parameter, a function of their arguments; mu:eval, mu:compile and the frame-setting natives at run time are not modelled.
- Worlds.EscapingClosureLosesItsFrame: is one form, not a characterisation of the escaping lambdas that fail.
- Evaluator values are trees: identity of conses and mutation of symbols during an evaluation are not modelled.
- Closures.ClosureCallRestoresStacks: models the pushes and pops of captured frames as one step each, without the frames of funcall-closure and core:mapc themselves.
- RestArguments.RestCallSplits: models core:foldl, core:foldr and mu:nthcdr on proper lists, as core:funcall calls them.
- RoundTrip.ReadBack: leaves out floats, whose text functions are parameters, and the brokets printed for functions, streams and namespaces, which do not read back; symbols with an extern namesake do not read back either (`RoundTrip.SymbolRoundTripIsExact`).
- Streams.OutputStream.Write: writes nothing for the dot syntax object and no colons for a symbol its namespace does not list, against which the source asserts; the throw of a lookup on a hash collision is in Namespaces.
- Reading.Read: names a symbol by namespace, scope and name; the interning itself is in Namespaces.
- Namespaces: symbol lists are sequences here, as Conses shows of heap lists; the hash is any function of names.
- Strings.HeapSliceIsSlice: is about the layout and the data; the allocation of the layout is Mapped's.
- Interned strings, files, sockets, threads, the REPL and the system calls.
- Fixnum arithmetic natives, vectors as accessors, and the rest of the core library: easy members.

# Verified model of the kernel's core algorithms and of its Lisp interpreter

This project models, in Dafny, the parts of the system whose correctness is hardest to see by
reading: the Lisp runtime in `usr/lisp`, the kernel's memory management, its scheduler and lock,
and a few small algorithms around them. Code that works by updating state in place is modelled by
classes, arrays and loops; each such method is proved against a specification on values, and what
the code is for is then proved about that specification.

**Lisp runtime.** `Scope.dfy` is the 512-bucket chained symbol table with nesting levels, proved to
be a stack of frames. `Semantics.dfy` says what an expression means on such frames, with the depth of
execution as an argument; `Interpreter.dfy` is the code's evaluator and builtins over the shared table
and the global depth counter, proved to compute exactly that, for every expression and every state,
and to leave the old bucket chains in place. `EvaluationLaws.dfy` adds laws over all programs about
scopes and the depth limit; `FunctionLaws.dfy` and `BuiltinLaws.dfy` say which values calls and builtins
give, by ordinary arithmetic and lists, and `ProgramLaws.dfy` goes from a program's characters to what it
prints.
Dereferencing null or a field that holds no pointer, dividing by zero and overflowing a signed int
are an explicit outcome, `Fault`. `Collector.dfy` is the mark-and-sweep collector over objects and the
growable array of `DynamicArray.dfy`; what survives is proved to stand for the same syntax trees. `Lexer.dfy`, `Grammar.dfy`, `Reader.dfy` and `ReaderLaws.dfy` are
the reader: the backtracking parser is proved to read what a one-token-lookahead parser reads, and that
to read exactly the grammar. `Convert.dfy` turns parsed values into syntax nodes.

**Kernel memory.** `RawMemory.dfy`, `HeapModel.dfy`, `HeapInvariant.dfy` and `Heap.dfy` are the
boundary-tag allocator over raw bytes; `HeapLaws.dfy` says what it means for the bytes in use, and
`HeapClient.dfy` runs any sequence of allocations, writes and frees. `Paging.dfy` is the construction
of the identity-mapped page table, down to the walk the processor makes (32-bit paging, section 4.3 of
the Intel SDM, volume 3A), and `HeapGrowth.dfy` shows that heap growth extends that very table.

**Scheduler and lock.** `Tasks.dfy` is the ring of tasks with priority ageing, `Locks.dfy` the
test-and-set lock as a system of atomic steps that the timer may interleave in any way, and
`LockSteps.dfy` those steps on the linked tasks and lock words.

**Small algorithms.** `Ustar.dfy` (the archive walker, for the ustar interchange format of POSIX pax),
`Wordle.dfy` (marking a guess), `Decimal.dfy` (printing and reading numbers) and `Hash.dfy` (the symbol-table
hash).

## Where the code does not do what it seems meant to

Each of these is modelled as the code has it; the lemma or method named gives the exact condition.

- `heap_free` hands `merge_right` the freed header even when `merge_left` has just absorbed it, and
  `merge_right` does not carry `is_last` over (src/heap.c:163-165, src/heap.c:177-178). The heap stays
  well formed exactly when `KernelHeap.FreesCleanly` holds of the blocks around
  (`KernelHeap.Heap.HeapFree`). Otherwise (`KernelHeap.Spoiled`) one of three things is left: with a hole
  on the left and the last hole on the right, the blocks still tile the heap, but two holes lie next to
  each other; with a hole on the left and another hole on the right, that one's footer names the header
  that was absorbed; with no hole on the left and the last hole on the right, the mark of the last block is
  lost. In the last two cases no tiling fits the bytes left behind, with or without neighbouring holes.
  Freeing the block most recently carved out of the last hole always spoils the heap
  (`HeapLaws.NewestBlockSpoils`). `HeapFreeMended` is the free that was meant.
- `heap_init` and heap growth write the last block's footer at the wrong address (src/heap.c:16,
  src/heap.c:120-122). The model writes it there too; nothing reads it before a split rewrites it.
- `int->string` prints only zeros for 10, 100, ... and overflows above 10^9
  (`Decimal.ReadBack`, `Decimal.IntToString`).
- Arguments are evaluated in the callee's frame, so one that defines an earlier parameter's name rebinds it:
  the parameters stand for their arguments exactly when none does (`FunctionLaws.ParametersHold`; a concrete
  call in `ArgumentRebinds`).
- `quote` dereferences null on every list the reader can produce (`EvaluationLaws.QuotingAListFaults`).
- A user function whose parameter list is not all symbols, or a `let` with a malformed binding, returns
  without `scope_out` and leaves its frame behind: exactly when `EvaluationLaws.AllSymbols` or
  `EvaluationLaws.GoodBindings` fails of the list (`BindsIffSymbols`, `BindsIffGood`,
  `CallRestoresFrames`, `LetRestoresFrames`; a concrete list in `NumberForNameLeaks`).
- `round_size` wraps to 0 for sizes above 2^32 - 512 (`Ustar.RoundSizeIsLeast`), and the walker then
  takes what follows the header for the next header, whatever the file's true size
  (`Ustar.WrappingHeader`).
- `pjw_hash` never takes its mixing branch, so only the last byte and the parity of the one before it
  choose a bucket (`Hash.BucketOfBytes`).
- A dotted pair and a path are read, but converted to null (`Convert.ConvertsIffDenotes`).
- A `'` before anything but a list or a symbol, and any character that starts no token, read as the end
  of the text (`Lexer.EofIff`; witnesses in `Lexer.EofInTheMiddle`).

## Model

| member | source | states |
|---|---|---|
| Hash.PjwHash | usr/lisp/scope.c:21-32 | the hash is the big-endian value of the bytes mod 2^32; the mixing branch is dead |
| Hash.LowBitsOfShift | usr/lisp/scope.c:25-26 | why the mixing branch is dead: the low four bits of a word shifted left by 28 are zero |
| Hash.BucketOfBytes | usr/lisp/scope.c:105-107 | the bucket is the last byte plus 256 times the parity of the byte before it |
| ScopeTable.FindIsTopmost | usr/lisp/scope.c:175-186 | in a chain whose levels never increase, the first entry of a name is the binding of the topmost frame that has the name |
| ScopeTable.BindShadows | usr/lisp/scope.c:96-116 | a new binding shadows the older ones of its name and no other name |
| ScopeTable.ActivityExtends | usr/lisp/scope.c:96-173 | any sequence of bindings and of levels entered and left again only puts entries of the current level in front of the chains |
| ScopeTable.PopUndoesActivity | usr/lisp/scope.c:149-173 | popping the level then gives every chain back |
| ScopeTable.Scope.Perform | usr/lisp/scope.c:96-173 | such a sequence, carried out on the table, leaves its own bindings and no trace of the inner levels |
| ScopeTable.Scope.Enclosed | usr/lisp/scope.c:149-173 | scope_in, any such sequence, scope_out: every chain, every frame and every lookup is what it was |
| ScopeTable.ExtendsTransitive | usr/lisp/scope.c:96-116 | growing chains in front of old ones composes |
| ScopeTable.DropExtends | usr/lisp/scope.c:153-173 | leaving a level keeps every chain of an older level below it, and gives the chains of the level just below back exactly |
| ScopeTable.DropFromIsSuffix | usr/lisp/scope.c:153-166 | popping a level leaves a suffix of the chain, without any entry of that level on top |
| ScopeTable.UnlinkFirst | usr/lisp/scope.c:126-147 | unlinking the newest entry of a name uncovers the one before it and moves no other |
| ScopeTable.AddKeepsGood | usr/lisp/scope.c:96-116 | adding keeps levels ordered along chains, entries in their buckets, and the frames the table stands for |
| ScopeTable.DropKeepsGood | usr/lisp/scope.c:168-173 | popping a level keeps the same invariant for the frames without the top one |
| ScopeTable.UnlinkKeepsGood | usr/lisp/scope.c:118-147 | deleting keeps it for the frames with the newest binding of the name uncovered |
| ScopeTable.Scope.constructor | usr/lisp/scope.c:86-92 | the empty table, before the builtins are added, stands for one empty frame |
| ScopeTable.Scope.Add | usr/lisp/scope.c:96-116 | binds in the top frame; only the name's chain grows, by one entry in front |
| ScopeTable.Scope.LookUp | usr/lisp/scope.c:175-186 | finds the newest live binding, or nothing |
| ScopeTable.Scope.LookupMatches | usr/lisp/scope.c:175-186 | the table's lookup and the frames' lookup agree on every name |
| ScopeTable.Scope.In | usr/lisp/scope.c:149-151 | pushes an empty frame and touches no chain |
| ScopeTable.Scope.Out | usr/lisp/scope.c:168-173 | pops the top frame from every chain |
| ScopeTable.Scope.DropBuckets | usr/lisp/scope.c:168-171 | every bucket loses exactly its leading entries of the level |
| ScopeTable.Scope.RecursivelyDelete | usr/lisp/scope.c:153-166 | frees the leading entries of at least the level and returns the rest |
| ScopeTable.Scope.Del | usr/lisp/scope.c:118-147 | removes the newest binding of the name, uncovering the one before; reports a missing key |
| Semantics.Eval | usr/lisp/exe.c:177-233 | evaluation terminates for every expression, state and depth; outer frames are untouched, the top one only grows, and a returning evaluation leaves one extra frame per skipped scope_out |
| Semantics.Call | usr/lisp/exe.c:133-175 | the same of calling a user function or builtin, whose own frame is gone unless its scope_out was skipped |
| Semantics.BindArgs | usr/lisp/exe.c:147-169 | the same of binding parameters; the early returns leave the frame behind |
| Semantics.RunPrim | usr/lisp/methods.c:17-651 | the same of every builtin |
| Semantics.ArithLoop | usr/lisp/methods.c:17-87 | the same of folding +, -, * and / over the evaluated arguments, on 32-bit words |
| Semantics.LogicLoop | usr/lisp/methods.c:184-222 | the same of `and`, which stops at the first zero, and `or`, which stops at the first non-zero |
| Semantics.RunDefine | usr/lisp/methods.c:127-173 | the same of defining a name or a function |
| Semantics.LetLoop | usr/lisp/methods.c:422-446 | the same of the bindings of `let` |
| Semantics.RunLet | usr/lisp/methods.c:422-446 | the same of the whole `let` |
| Semantics.RecursiveMap | usr/lisp/methods.c:473-491 | the same of mapping a method over a list |
| Semantics.ApplyLoop | usr/lisp/methods.c:448-471 | the same of folding a method over a list |
| Semantics.UnquoteTree | usr/lisp/methods.c:596-616 | the same of unquoting a tree |
| EvaluationLaws.BindsIffSymbols | usr/lisp/exe.c:152-169 | without a fault, the parameter loop runs to its end if and only if every parameter is a symbol |
| EvaluationLaws.BindsIffGood | usr/lisp/methods.c:429-442 | without a fault, the loop of `let` runs to its end if and only if every binding is a pair with a pair behind its key |
| EvaluationLaws.FramesAfterBody | usr/lisp/exe.c:147-174 | the frames are restored exactly when the loop ran to its end and nothing inside skipped a scope_out |
| EvaluationLaws.CallRestoresFrames | usr/lisp/exe.c:133-175 | a user-function call that returns restores every frame if and only if its parameters are symbols and nothing evaluated inside it skipped a scope_out |
| EvaluationLaws.LetRestoresFrames | usr/lisp/methods.c:422-446 | a `let` that returns does so if and only if its bindings are well formed and nothing inside it skipped one |
| EvaluationLaws.NumberForNameLeaks | usr/lisp/exe.c:158-161 | a number in place of a parameter or a binding leaves the new frame in place |
| EvaluationLaws.OuterBindingsSurvive | usr/lisp/exe.c:177-233 | whatever an expression does, names bound only by outer frames mean the same once the current frame is left |
| EvaluationLaws.DepthIsOnlyALimit | usr/lisp/exe.c:179-182 | the depth limit only cuts evaluation short: one that does not report it gives the same outcome and state from any shallower depth |
| EvaluationLaws.NodeShallower | usr/lisp/exe.c:177-233 | the step of it: the law holds of a node if it holds one level deeper |
| EvaluationLaws.PrimShallower | usr/lisp/methods.c:17-651 | the same of every builtin |
| EvaluationLaws.CallShallower | usr/lisp/exe.c:133-175 | the same of every call |
| EvaluationLaws.QuoteFaultsOnNull | usr/lisp/methods.c:568-587 | quoting faults exactly when null is reachable through pair links |
| EvaluationLaws.QuotingAListFaults | usr/lisp/methods.c:589-594 | so it faults on every quoted proper list |
| FunctionLaws.ArgumentsAreBound | usr/lisp/exe.c:151-169 | parameter i is bound to the value of argument i, evaluated in the new frame after those before it; further arguments are ignored |
| FunctionLaws.ParametersHold | usr/lisp/exe.c:151-169 | different parameters stand for the arguments in order, from their binding on, if and only if no later argument rebinds an earlier parameter when it is evaluated |
| FunctionLaws.ArgumentRebinds | usr/lisp/exe.c:163-169 | one may: ((lambda (x y) x) 1 (define x 2)) gives 2 |
| FunctionLaws.CallGivesBody | usr/lisp/exe.c:146-174 | a call gives what the body gives with every parameter standing for its argument |
| FunctionLaws.KthArgument | usr/lisp/exe.c:133-175 | the function of n different parameters that returns its kth one, applied to n constants, returns the kth and leaves the state as it was |
| FunctionLaws.LambdaGives | usr/lisp/methods.c:239-254 | a lambda expression is the function of its parameters with its body |
| FunctionLaws.LambdaProgram | usr/lisp/exe.c:177-233 | the same application written with lambda gives the kth constant |
| FunctionLaws.LetIsBound | usr/lisp/methods.c:429-442 | the loop of `let` binds each name to its expression's value, evaluated after the names before it were bound |
| FunctionLaws.LetGivesBody | usr/lisp/methods.c:422-446 | `let` gives what its body gives with every name standing for its value |
| FunctionLaws.HeadDecides | usr/lisp/exe.c:195-216 | the value of a list's head is called with the rest; a head that is no method leaves the list as it is |
| FunctionLaws.NamesAndDepth | usr/lisp/exe.c:177-233 | a name gives the value of what it is bound to, or null; at depth 64 nothing is evaluated |
| BuiltinLaws.SumAndProductLaw | usr/lisp/methods.c:17-67 | + and * of operands that evaluate to numbers are the sum and the product mod 2^32 |
| BuiltinLaws.DifferenceAndQuotientLaw | usr/lisp/methods.c:34-87 | - takes the sum of the others from the first mod 2^32; / divides it by their product, and faults on a zero among them |
| BuiltinLaws.Misfit | usr/lisp/methods.c:17-67 | an operand that is no number gives null; a null one faults but for + |
| BuiltinLaws.IfLaw | usr/lisp/methods.c:89-106 | `if` evaluates its second operand for any number but 0, its third for 0 |
| BuiltinLaws.ComparisonLaw | usr/lisp/methods.c:275-357 | =, <, >, <=, >= and /= compare unsigned words and give 1 or 0 |
| BuiltinLaws.WrongKindOfTwo | usr/lisp/methods.c:275-357 | they give null unless both operands are numbers |
| BuiltinLaws.LogicLaw | usr/lisp/methods.c:184-222 | `and` is 1 if no number is 0 and stops with 0 at the first 0; `or` is 0 if all are 0 and stops with 1 at the first other; nothing behind is evaluated |
| BuiltinLaws.ListLaw | usr/lisp/methods.c:529-548 | `list` is the list of its operands' values in order |
| BuiltinLaws.StringAppendLaw | usr/lisp/methods.c:375-420 | `string-append` gives the strings one after the other |
| BuiltinLaws.OneOperandLaw | usr/lisp/methods.c:550-566 | `car` and `cdr` evaluate the two halves of a list node; `not` is 1 for 0 alone; int->string gives the digits |
| BuiltinLaws.WrongKindLaw | usr/lisp/methods.c:550-566 | they give null for a value of another kind |
| BuiltinLaws.RangeLaw | usr/lisp/methods.c:625-651 | `range` is the list from the first signed number up to, not including, the second |
| BuiltinLaws.DefineLaw | usr/lisp/methods.c:134-147 | `define` gives the name the value, and every other name keeps its meaning |
| BuiltinLaws.DefineFunctionLaw | usr/lisp/methods.c:148-168 | `define` of a list makes its first name the function of the others |
| BuiltinLaws.QuoteLaw | usr/lisp/methods.c:568-587 | where it does not fault, quoting puts quotes on and changes nothing else |
| BuiltinLaws.UnquoteLaw | usr/lisp/methods.c:596-616 | unquoting a quoted call of a builtin on numbers makes the call |
| BuiltinLaws.MapLaw | usr/lisp/methods.c:473-500 | `map` calls the function on each element in order and gives the plain list of the results |
| BuiltinLaws.ApplyLaw | usr/lisp/methods.c:448-471 | `apply` is the left fold of the list |
| BuiltinLaws.ApplyToNumber | usr/lisp/methods.c:448-471 | `apply` to a number instead of a list faults, but for 0, which reads as a null pointer |
| ProgramLaws.ProgramLaw | usr/lisp/exe.c:284-293 | the expressions of a program are evaluated in order at depth 0, and what each gives is printed |
| ProgramLaws.LambdaTextPrints | usr/lisp/exe.c:122-293 | the text ((lambda (x_0 ...) x_k) n_0 ...), numbers in any number of digits, is read, converted and run to print exactly n_k |
| Interpreter.Machine.ExecNode | usr/lisp/exe.c:177-233 | the evaluator over the hash table does what the semantics says of the frames; it terminates, restores the depth counter and keeps the protected chains as suffixes |
| Interpreter.Machine.ExecFunction | usr/lisp/exe.c:133-175 | the same of a call; one that skips no scope_out restores every bucket chain exactly |
| Interpreter.Machine.ExecBody | usr/lisp/exe.c:170-174 | the body and the scope_out behind it do what the semantics says; if nothing since scope_in skipped one, every bucket chain is what it was at scope_in |
| Interpreter.Machine.BindArguments | usr/lisp/exe.c:151-169 | the parameter loop computes the recursive binding |
| Interpreter.Machine.RunBuiltin | usr/lisp/methods.c:17-651 | every builtin does what the semantics says |
| Interpreter.Machine.MethodArith | usr/lisp/methods.c:17-87 | the arithmetic loops compute the recursive fold |
| Interpreter.Machine.MethodIf | usr/lisp/methods.c:89-106 | `if` evaluates one branch, chosen as the semantics says |
| Interpreter.Machine.MethodEq | usr/lisp/methods.c:108-125 | `=` compares as the semantics says |
| Interpreter.Machine.MethodDefine | usr/lisp/methods.c:127-173 | `define` binds in the current frame |
| Interpreter.Machine.MethodLogic | usr/lisp/methods.c:184-222 | the loops of `and` and `or` compute the recursive forms |
| Interpreter.Machine.MethodCompare | usr/lisp/methods.c:275-357 | both operands are evaluated, in order, before either is looked at |
| Interpreter.Machine.MethodStringAppend | usr/lisp/methods.c:375-420 | the loop appends the evaluated strings in order |
| Interpreter.Machine.MethodLet | usr/lisp/methods.c:422-446 | `let` refines its semantics; one that skips no scope_out restores every bucket chain exactly |
| Interpreter.Machine.BindLet | usr/lisp/methods.c:426-441 | the binding loop of `let` computes the recursive binding |
| Interpreter.Machine.MethodApply | usr/lisp/methods.c:448-471 | the loop of `apply` is the left fold |
| Interpreter.Machine.MethodMap | usr/lisp/methods.c:493-500 | `map` refines its semantics |
| Interpreter.Machine.MapOver | usr/lisp/methods.c:473-491 | its recursion over the list does |
| Interpreter.Machine.MethodList | usr/lisp/methods.c:529-548 | `list` evaluates every element in order |
| Interpreter.Machine.MethodIntToString | usr/lisp/methods.c:502-527 | `int->string` refines its semantics, overflow included |
| Interpreter.Machine.MethodUnquote | usr/lisp/methods.c:618-623 | `unquote` refines its semantics |
| Interpreter.Machine.Evaluate | usr/lisp/exe.c:177-233 | after any evaluation each chain is entries of at least the old level in front of the old chain; if no scope_out was skipped, the level is the old one and the new entries have exactly that level |
| Interpreter.Machine.ScopeExec | usr/lisp/exe.c:284-293 | running a program gives the outcomes of the reference run in order, keeps every old chain as a suffix, and if no scope_out was skipped ends at the old level with all new entries at that level |
| Collector.BelowIsLeast | usr/lisp/scope.c:188-199 | what marking a node must reach is the least set that holds it and is closed under children |
| Collector.LiveIsLeast | usr/lisp/scope.c:201-209 | the live nodes are the least set that holds the table's nodes and their children |
| Collector.ClosedSubset | usr/lisp/scope.c:201-233 | what survives a collection is again an acyclic graph without dangling links |
| Collector.LiveIsReached | usr/lisp/scope.c:188-209 | the live nodes are the entries' nodes and, link by link, the children of pairs, quoted pairs and methods: none is missing, and each is one of these |
| Collector.DenotesTheSame | usr/lisp/scope.c:188-233 | a pointer into what is kept stands for the syntax tree it stood for, with all its nodes kept |
| Collector.Advance | usr/lisp/scope.c:212-231 | one turn of the sweep moves the boundary between nodes dealt with and nodes to come by one |
| Collector.Store.NewNode | usr/lisp/scope.c:14-19 | a new node is listed last, unmarked, and the store stays valid |
| Collector.Store.MarkNode | usr/lisp/scope.c:188-199 | marks exactly what is reachable, although it never looks at marks; it ends because the graph is acyclic |
| Collector.Store.MarkChain | usr/lisp/scope.c:204-208 | marks exactly what one chain reaches, besides what was marked |
| Collector.Store.Mark | usr/lisp/scope.c:202-209 | marks exactly the live nodes |
| Collector.Store.Visit | usr/lisp/scope.c:212-231 | the body of the sweep, with the index wrapping below zero after a removal |
| Collector.Store.Sweep | usr/lisp/scope.c:210-231 | the in-place sweep keeps the live nodes in order with clear marks and frees each other node and its span once |
| Collector.Store.Collect | usr/lisp/scope.c:201-234 | a collection keeps, in order, exactly the nodes that table entries reach through pairs, quoted pairs and methods; each entry stands for the syntax tree it stood for; the others are freed once, with their spans if they are symbols, quoted symbols, paths or strings; marks are clear |
| DynamicArray.Array.Grow | usr/lisp/array.c:17-26 | growing doubles the room and keeps the contents |
| DynamicArray.Array.Shrink | usr/lisp/array.c:28-36 | shrinking keeps the contents and leaves room for one more |
| DynamicArray.Array.Push | usr/lisp/array.c:38-43 | appends |
| DynamicArray.Array.Pop | usr/lisp/array.c:45-50 | removes and returns the last element |
| DynamicArray.Array.Remove | usr/lisp/array.c:52-58 | removes element i in place and keeps the order of the others |
| Lexer.Lex | usr/lisp/lexer.c:29-127 | lexing always ends inside the text and moves on at every token that is not the end |
| Lexer.TokenAt | usr/lisp/lexer.c:31-126 | the same of the switch itself |
| Lexer.EofIff | usr/lisp/lexer.c:29-127 | lexing reports the end exactly at the end of the text, at a quote before neither list nor symbol, and at an illegal character, behind blanks and comments |
| Lexer.TokenEofIff | usr/lisp/lexer.c:31-126 | the same of the switch itself |
| Lexer.EofInTheMiddle | usr/lisp/lexer.c:113-126 | a tab, and a quote before a number, hide what follows them |
| Lexer.NamesEndAtDelimiters | usr/lisp/lexer.c:15-113 | a name is one symbol, and ends exactly at the first `"`, `'`, `.`, bracket, blank or character outside the printable ones; a number ends at the first character that is no digit |
| Lexer.PathsEndAtDelimiters | usr/lisp/lexer.c:54-82 | so do quoted names and paths, in which dots count |
| Lexer.StringsEndAtMarks | usr/lisp/lexer.c:86-93 | a string ends at the next quotation mark |
| Lexer.BlanksAreSkipped | usr/lisp/lexer.c:36-40 | blanks, line ends and comments up to the line end are skipped, and nothing else |
| Lexer.NameIsOneSymbol | usr/lisp/lexer.c:15-113 | any string of other printable characters that begins with neither a digit nor ; is one symbol before whatever delimiter follows |
| Lexer.RunEnd | usr/lisp/lexer.c:75-77 | a run of characters of one class is taken as far as it goes |
| Lexer.After | usr/lisp/lexer.c:29-127 | each token moves the position on, and the tokens left grow fewer by as many as were passed |
| Lexer.LexedIsSpelled | usr/lisp/lexer.c:29-127 | every token lexed is spelled as its class demands |
| Lexer.WrittenIsLexed | usr/lisp/lexer.c:29-127 | every token so spelled, followed by a blank, is lexed back |
| Lexer.LexIsLocal | usr/lisp/lexer.c:29-127 | lexing never looks back |
| Lexer.LexInvertsSpaced | usr/lisp/lexer.c:29-127 | any stream of properly spelled tokens written with blanks is lexed back exactly |
| Lexer.LastTokenEnds | usr/lisp/lexer.c:29-127 | and its last token ends right before the last blank of the text |
| Grammar.ReadIsSound | usr/lisp/parser.c:181-239 | a value that is read is spelled by exactly the tokens taken |
| Grammar.ReadAllIsSound | usr/lisp/parser.c:241-256 | so is a sequence of values |
| Grammar.ReadIsComplete | usr/lisp/parser.c:181-239 | the tokens of any value, whatever follows, are read as that value |
| Grammar.ReadAllIsComplete | usr/lisp/parser.c:241-256 | so are those of any sequence of values before a token no value starts with |
| Grammar.ReadIffEmitted | usr/lisp/parser.c:181-239 | a value is read if and only if its tokens come first |
| Grammar.GrammarIsUnambiguous | usr/lisp/parser.c:23-256 | a stream starts with the tokens of at most one value |
| Reader.BacktrackingReads | usr/lisp/parser.c:181-239 | trying list, pair, quoted list and leaf one after the other from the start reads what one token of lookahead reads |
| Reader.PairAfterList | usr/lisp/parser.c:66-102 | in particular a pair is read only after the list parser has given up on it |
| Reader.Cursor.NextToken | usr/lisp/lexer.c:29-127 | the loops over blanks and comments and the switch compute the token and the new position |
| Reader.Cursor.Here | usr/lisp/lexer.c:31-126 | the switch does |
| Reader.Cursor.Run | usr/lisp/lexer.c:75-78 | the loops over symbol characters and digits do |
| Reader.Cursor.Find | usr/lisp/lexer.c:86-93 | the loops to a closing quote or line end do; they leave the text if there is none |
| Reader.Cursor.ParseSpan | usr/lisp/parser.c:104-179 | the leaf parsers read one token of their kind or put the cursor back |
| Reader.Cursor.ParseList | usr/lisp/parser.c:23-63 | reads an opener, values and a closing bracket, or puts the cursor back |
| Reader.Cursor.ParsePair | usr/lisp/parser.c:66-102 | reads a dotted pair, or puts the cursor back |
| Reader.Cursor.ParseValue | usr/lisp/parser.c:181-239 | reads the value the lookahead parser reads and stops right behind its tokens, or puts the cursor back |
| Reader.Cursor.ParseListContents | usr/lisp/parser.c:241-256 | reads as many values as follow each other |
| Reader.Cursor.Parse | usr/lisp/parser.c:258-261 | so does the whole parser |
| ReaderLaws.ReadInvertsRender | usr/lisp/parser.c:258-261 | reading any rendered sequence of values gives it back and leaves no token unread |
| ReaderLaws.RenderedText | usr/lisp/parser.c:23-256 | the rendered text is brackets, dots, quotes and spans with a blank behind each |
| ReaderLaws.WhatIsRead | usr/lisp/parser.c:258-261 | what is read from any text can be rendered and read again; the tokens between the cursors are those of the values |
| ReaderLaws.CutMeansUnclosed | usr/lisp/lexer.c:86-93 | the cursor leaves the text only if a string or comment is not closed |
| ReaderLaws.OnlyBlanksLeft | usr/lisp/parser.c:258-261 | behind the last token of a rendered program there are only blanks |
| ReaderLaws.ParseRendered | usr/lisp/parser.c:258-261 | the parser itself, run on a rendered program, returns the program and leaves nothing but blanks behind the cursor |
| ReaderLaws.ParseMovesOn | usr/lisp/parser.c:258-261 | success moves the cursor on past exactly the values' tokens; failure leaves it and means that no value is spelled there |
| Convert.SoundIffReadable | usr/lisp/parser.c:181-239 | the reader can produce exactly the values without empty lists whose spans are each one token |
| Convert.ConvertsIffDenotes | usr/lisp/exe.c:12-120 | of every value the reader can produce, convert_value gives exactly what it denotes: numbers of any length mod 2^32, names, quoted names, strings without their marks, chains of plain or quoted pairs, and null for dotted pairs and paths |
| Convert.ListIffDenotes | usr/lisp/exe.c:57-81 | the same of the elements of a list |
| Convert.QuoteListIffDenotes | usr/lisp/exe.c:31-55 | and of a quoted list |
| Convert.NumberText | usr/lisp/exe.c:19-29 | the text of n in any k digits that hold it is read and converted to n mod 2^32 |
| Convert.ProgramTextDenotes | usr/lisp/exe.c:122-131 | the text of any values is read, and converted to exactly what they denote |
| Convert.SourceDenotes | usr/lisp/exe.c:12-120 | every literal expression is denoted by some value |
| Convert.ConvertInvertsSource | usr/lisp/exe.c:12-120 | which is converted to it |
| Convert.EveryProgramHasText | usr/lisp/exe.c:122-131 | every program of literal expressions has a text that is read and converted to exactly that program |
| Decimal.DigitsValue | usr/lib/string.c:38-49 | the last k digits of n denote n mod 10^k |
| Decimal.DigitAt | usr/lisp/methods.c:515-521 | digit i is that of n div 10^(k-1-i) mod 10, as a character of 0123456789 |
| Decimal.ValueDigits | usr/lib/string.c:38-49 | every digit string is that of the number it stands for |
| Decimal.WidthIsLeast | usr/lisp/methods.c:509-514 | the digit count is the least k >= 1 with n <= 10^k |
| Decimal.IntToString | usr/lisp/methods.c:509-522 | prints exactly those digits; the power overflows exactly above 10^9 |
| Decimal.Emit | usr/lisp/methods.c:515-521 | the buffer loop writes the digits from the most significant on |
| Decimal.StrToUint | usr/lib/string.c:38-49 | the value of a digit string mod 2^32, or the error constant |
| Decimal.ReadBack | usr/lisp/methods.c:509-522 | reading back what was printed gives n, or 0 exactly when n is a power of ten from 10 on |
| HeapModel.Splice | src/heap.c:30-104 | rewriting neighbouring blocks in place takes one tiling of the heap to another |
| HeapModel.FlagHole | src/heap.c:171-175 | writing the hole flag of a block, here and at src/heap.c:58, makes it a hole or a block in use, well formed with its footer |
| HeapModel.PageTakenIn | src/heap.c:119-122 | the two writes of growth leave a last block one page longer |
| HeapModel.HeapBytes | src/heap.c:182-184 | every byte is payload, bookkeeping of a block in use, or in a hole |
| HeapModel.UsedSplice | src/heap.c:57-104 | rewriting blocks changes the bytes in use by what changes within them |
| HeapModel.WalkAgrees | src/heap.c:37-104 | walking the headers meets the same blocks in every tiling |
| HeapModel.AdjacentHolesUntiled | src/heap.c:152-166 | two neighbouring holes rule out every tiling in which holes are joined |
| HeapModel.UnmarkedLastUntiled | src/heap.c:152-166 | an end that no block marks rules out every tiling, holes joined or not |
| HeapModel.StaleFooterUntiled | src/heap.c:129-166 | so does a footer inside the heap that names no header |
| HeapModel.TakingIn | src/heap.c:152-166 | the writes of size and footer make one hole of two and keep the header that was absorbed |
| HeapInvariant.InitialOk | src/heap.c:9-21 | one hole over everything is well formed |
| HeapInvariant.TakeWholeOk | src/heap.c:54-60 | an exact fit keeps the heap well formed and counts its payload |
| HeapInvariant.TakePartOk | src/heap.c:65-104 | so does a split |
| HeapInvariant.ExtendOk | src/heap.c:106-123 | so does growth by a page, which stays mapped |
| HeapInvariant.MergeTiled | src/heap.c:129-166 | writing one hole over neighbouring blocks takes one tiling to another |
| HeapInvariant.MergeOk | src/heap.c:171-180 | so the heap stays well formed when a block and the holes around it become one hole, and used_bytes drops by the block's payload |
| HeapInvariant.SpoiledByTwoHoles | src/heap.c:177-178 | a stale header given to merge_right leaves two neighbouring holes, which no tiling with joined holes allows |
| HeapInvariant.SpoiledByLostMark | src/heap.c:163-165 | swallowing the last block without its mark leaves an end that no tiling allows, holes joined or not |
| HeapInvariant.SpoiledByStaleFooter | src/heap.c:164-178 | in a block other than the last, the footer that names the stale header rules out every tiling too |
| HeapInvariant.StillLaid | src/heap.c:164-178 | in the last block nobody reads that footer, and the two holes still tile the heap |
| HeapInvariant.Neighbours | src/heap.c:129-166 | what the headers and footers around a block in use say |
| KernelHeap.ReserveLeavesRoom | src/heap.c:23-28 | the reserve for a page table keeps the last block from being filled exactly |
| KernelHeap.LargeLastFits | src/heap.c:23-28 | the reserve is never more than two pages and a footer, so a last block larger by that much fits |
| KernelHeap.FitsIffPageBehind | src/heap.c:23-28 | there is room for a page table if and only if a page boundary strictly beyond the request's end has a whole page and a footer behind it in the block |
| KernelHeap.FitsIff | src/heap.c:41-67 | a block fits if and only if it is a hole of exactly the bytes needed or at least 12 more, with such a boundary if it is the last |
| KernelHeap.ServedIffPossible | src/heap.c:30-124 | heap_malloc gives a block if and only if some number of available pages makes a block fit; after a failure none can be had |
| KernelHeap.EnoughPagesServe | src/heap.c:106-123 | so it gives one whenever enough pages with page tables follow the heap |
| KernelHeap.FitTest | src/heap.c:41-67 | what the tests of the loop amount to; the last block is never an exact fit |
| KernelHeap.Heap.constructor | src/heap.c:9-21 | heap_init leaves one hole in a well-formed heap, at page-aligned ends |
| KernelHeap.Heap.FirstFit | src/heap.c:37-104 | the loop stops at the first block that fits, counting from the left, or at the last block |
| KernelHeap.Heap.Split | src/heap.c:69-89 | the header and footer writes make an allocated block and a hole, and touch nothing outside |
| KernelHeap.Heap.TakeWhole | src/heap.c:54-60 | an exact fit |
| KernelHeap.Heap.TakePart | src/heap.c:65-104 | a split fit |
| KernelHeap.Heap.Extend | src/heap.c:119-122 | the last block takes in the next page |
| KernelHeap.Heap.AllocPage | src/memory.c:79-82 | reports whether the page lies in memory, and adds it to the pages mapped; the table entry it writes is that of `HeapGrowth` |
| KernelHeap.Heap.GrowByPage | src/heap.c:110-122 | grows by exactly the page behind the heap if it lies in memory and has a page table; else says which is missing |
| KernelHeap.Heap.MallocOrGrow | src/heap.c:30-124 | grows only as often as needed, then uses the first block that fits; fails only when nothing fits and the next page is not available; no byte of a block in use, and none outside the heap, changes; the recursion ends |
| KernelHeap.Heap.HeapMalloc | src/heap.c:30-124 | the same, and a block is given if and only if one can be had |
| KernelHeap.Heap.MergeLeft | src/heap.c:129-147 | joins a hole on the left, carrying the last mark |
| KernelHeap.Heap.MergeRight | src/heap.c:152-166 | takes in a hole on the right, without carrying the last mark |
| KernelHeap.Heap.MarkFree | src/heap.c:171-175 | the block becomes a hole and used_bytes drops by its payload |
| KernelHeap.Heap.FreeLeft | src/heap.c:171-177 | the first half of heap_free: the block is a hole, joined with one on its left; its own header still stands, and the block on the right is as it was |
| KernelHeap.Heap.HeapFree | src/heap.c:171-180 | as written: the heap stays well formed, with the block and its neighbouring holes made one, if and only if FreesCleanly; else it leaves two holes that still tile the heap, a stale footer, or an end without its mark, depending on which neighbours are holes; no other block's bytes change |
| KernelHeap.Heap.HeapFreeMended | src/heap.c:171-180 | as meant: always well formed |
| HeapLaws.Accounting | src/heap.c:182-184 | heap size = used_bytes + 12 per block in use + the holes |
| HeapLaws.MallocMeans | src/heap.c:30-104 | a successful heap_malloc, in numbers: where the block lies, its 8-byte header and 4-byte footer, that holes further left are too small, and that no byte of a block in use changed |
| HeapLaws.FreeMeans | src/heap.c:171-180 | a free changes no byte of another block in use |
| HeapLaws.AllocationAddsItsBlock | src/heap.c:30-104 | an allocation adds exactly its block's bytes to those in use, none of which was in use |
| HeapLaws.FreeRemovesItsBlock | src/heap.c:171-180 | a free takes out exactly its block's bytes |
| HeapLaws.NewestBlockSpoils | src/heap.c:171-180 | freeing the block last carved out of the last hole spoils the heap as written |
| HeapClient.ServeMalloc | src/heap.c:30-124 | malloc gives a block exactly when one can be had; it is none of those held, and the contents of all of them are kept; a refusal gives the reason |
| HeapClient.ServeFree | src/heap.c:171-180 | free keeps the contents of all other blocks held |
| HeapClient.ServeWrite | src/heap.h:10-23 | a write into one block's payload harms neither the heap nor another block |
| HeapClient.HeldApart | src/heap.h:10-23 | blocks held lie apart by at least a footer and a header, within the heap |
| HeapClient.Serve | src/heap.c:30-184 | over any run of mallocs, writes and frees each block held contains what was last written to it, blocks held are distinct and in use, and used_bytes is the sum of their sizes; it stops early only at a request the client must not make or at a malloc that no added page can satisfy |
| Paging.Align4k | src/common.c:75-81 | the least multiple of 4096 that is not below |
| Paging.TranslatesToItself | src/memory.c:79-105 | under the tables built, the processor's walk takes every address of the first n pages to itself, present and writable, and finds no other present |
| Paging.TableWords | src/memory.c:79-105 | the words of directory and tables in numbers, flags included |
| Paging.NextPageMapped | src/memory.c:103-104 | filling in the next page's entry maps one page more |
| Paging.NextTableMapped | src/memory.c:86-104 | so does making its table first |
| Paging.MappedIffEnoughRam | src/memory.c:107-120 | everything below an end translates to itself exactly when that end lies in RAM |
| Paging.FewTablesStep | src/memory.c:86-102 | a table is only made when it is needed |
| Paging.EnoughRamIff | src/memory.c:107-120 | whether the end that the run arrives at lies in RAM follows from the directory's address, by an explicit bound |
| Paging.KernelMemory.KmallocInternal | src/memory.c:24-41 | bump allocation: aligned when asked, right behind what was allocated |
| Paging.KernelMemory.AllocPage | src/memory.c:79-105 | maps the next page if it lies in RAM, making its table from the memory being mapped |
| Paging.KernelMemory.MapPage | src/memory.c:117-120 | one turn of the loop maps one page and brings the end closer, although it may move the bound |
| Paging.KernelMemory.MapAll | src/memory.c:116-120 | the loop ends, although its bound moves |
| Paging.KernelMemory.MemoryInit | src/memory.c:107-120 | all pages below the end of the heap-to-be that lie in RAM are mapped, by tables that follow the directory; every address below that end, tables included, translates to itself if and only if RAM reaches the bound computed from the start and the image end; no other memory changes |
| HeapGrowth.SetsAreSeen | src/memory.c:79-105 | the sets of tables and pages in the heap model are what the processor sees in the page table |
| HeapGrowth.FirstHeapIsMapped | src/memory.c:129 | the first heap is mapped |
| HeapGrowth.GrowthIsNextPage | src/memory.c:79-105 | the page at the heap's end is available exactly when it lies in memory and does not begin a new table; then the entry alloc_page writes maps exactly that page more |
| HeapGrowth.GrownHeapIsMapped | src/heap.c:106-123 | however far the heap grows, the page table in memory identity-maps exactly the pages up to its end |
| Tasks.SettleAges | src/task.c:47-54 | each stop of the cursor ages a task by one until it is due, is chosen and starts again at 0 |
| Tasks.TickKeepsFair | src/task.c:47-54 | no age exceeds its priority and the chosen task's age is 0, after every call; priorities do not change |
| Tasks.ExactShare | src/task.c:47-54 | after n visits a task of priority p and age a was chosen (a + n) div (p + 1) times and has age (a + n) mod (p + 1), over every run |
| Tasks.RunsSoon | src/task.c:47-54 | it runs within (p - a + 1) * N calls, whatever the other tasks do |
| Tasks.TickSpendsPatience | src/task.c:47-54 | every call chooses the task or brings it closer |
| Tasks.SpliceCycle | src/task.c:36-40 | linking a task in behind the current one keeps the ring one cycle |
| Tasks.Scheduler.constructor | src/task.c:15-23 | the ring of the root task alone |
| Tasks.Scheduler.MoveStack | src/task.c:25-41 | forking links the new task in right behind the current one; `next` is still one cycle through exactly the tasks forked |
| Tasks.Scheduler.PassBy | src/task.c:49-52 | one turn of the loop leaves the place where the cursor comes to rest as it was, and brings it closer |
| Tasks.Scheduler.IncrTask | src/task.c:47-54 | the ageing loop over the linked tasks ends and computes the specification |
| Tasks.Scheduler.SetPriority | src/mutex.c:8-18 | the priority writes of lock |
| Locks.StepIsSafe | src/mutex.c:4-33 | every step of lock, try_lock, unlock, fork and the timer keeps the invariant |
| Locks.MutualExclusion | src/mutex.c:4-33 | over every interleaving from start-up no mutex has two holders, a word is 1 exactly when somebody holds it, tasks inside lock have priority 15 and all others 0, and the ageing invariant holds |
| Locks.ExchangeWinsIfFree | src/mutex.c:11-14 | an xchg takes the mutex exactly when nobody holds it |
| Locks.EveryTaskRuns | src/task.c:47-54 | without forks every task, waiting or not, runs in any stretch of 16 * N timer ticks |
| Locks.WaitersDefer | src/mutex.c:4-20 | over any run without forks a task that stays inside lock, of age a at the start, is chosen (a + n) div 16 times in n visits of the cursor, and one that stays outside at every visit |
| LockSteps.Kernel.Timer | src/task.c:47-54 | the step on the linked tasks is the step of the model |
| LockSteps.Kernel.ForkTask | src/task.c:25-41 | likewise |
| LockSteps.Kernel.EnterLock | src/mutex.c:4-9 | likewise, raising the priority to 15 |
| LockSteps.Kernel.Exchange | src/mutex.c:11-14 | likewise, one turn of the xchg loop on the lock word |
| LockSteps.Kernel.LeaveLock | src/mutex.c:16-20 | likewise, lowering the priority to 0 |
| LockSteps.Kernel.TryLock | src/mutex.c:23-27 | likewise; it succeeds exactly when the word was 0 |
| LockSteps.Kernel.Unlock | src/mutex.c:29-33 | likewise |
| Ustar.ReadOctal | src/tar.c:10-17 | the octal value of all but the last byte, mod 2^32 |
| Ustar.SizeFieldInverts | src/tar.c:10-17 | eleven octal digits give back any 32-bit size |
| Ustar.RoundSizeIsLeast | src/tar.c:19-24 | the least multiple of 512 that is not below, exactly for sizes up to 2^32 - 512; above, 0 |
| Ustar.HeaderIsRead | src/tar.c:26-49 | name and size of an encoded header are read exactly |
| Ustar.FileLayout | src/tar.h:6-26 | name, octal size and contents of an archived file lie at bytes 0, 124 and 512 |
| Ustar.OctalAt | src/tar.c:10-17 | octal digit i is n div 8^(k-1-i) mod 8 |
| Ustar.OrdinaryFile | src/tar.c:41-48 | the walk goes on at the next header |
| Ustar.WrappingHeader | src/tar.c:41-48 | after any header whose size field wraps it goes on right behind that header |
| Ustar.OversizedFile | src/tar.c:41-48 | so after a file of such a size it goes on in the file's contents |
| Ustar.WalkInvertsEncode | src/tar.c:26-51 | loading an encoded archive lists its files in order with exact names, sizes and addresses if and only if no size wraps (but for a last file that starts with a zero byte) |
| Ustar.DataIsThere | src/tar.c:44 | the contents of every file lie at the address listed |
| Ustar.LoadUstar | src/tar.c:26-51 | the loop builds a linked list with exactly the files of the walk, or leaves the archive |
| Ustar.Append | src/tar.c:31-45 | a new node is linked behind the last |
| Ustar.StrLen | src/string.c:5-11 | the length up to the first zero byte |
| Ustar.StrCmp | src/string.c:13-26 | equal strings compare equal up to 999 characters; the sign is that of the first difference; 1000 common characters stop the kernel |
| Ustar.TarFindFile | src/tar.c:53-58 | the first file of the name, or null if there is none |
| Ustar.FindInArchive | src/tar.c:26-58 | loading an archive and looking a name up gives the first file of that name, with its size and a pointer to its contents, and null exactly when no file has it |
| Ustar.WalkedNames | src/tar.c:38-42 | names listed are non-empty C strings |
| Wordle.Mark | usr/wordle.c:33-58 | greens are exactly the equal positions; for each letter as many positions are coloured as guess and answer have in common; yellows stand for distinct answer positions that are not green, left to right |
| Wordle.MarkGreens | usr/wordle.c:33-37 | the first pass flags the greens |
| Wordle.Claim | usr/wordle.c:44-51 | the inner loop takes a free place of the letter if there is one |
| Wordle.StepIsMarked | usr/wordle.c:40-58 | one turn of the second pass keeps all of this |
| Wordle.EndIsMinimum | usr/wordle.c:40-58 | at the end the coloured positions of each letter are the minimum of its counts |
| Wordle.RulesInPlaces | usr/wordle.c:33-58 | under the rules, for every letter the number of its coloured places is the smaller of the numbers of its places in guess and answer |
| Wordle.RulesDetermineMarking | usr/wordle.c:33-58 | no other marking follows these rules |

## Left out

- The Lisp builtins `read` and `exec`, the text that `display` and the interpreter print, and the initial table of builtins (the evaluator is proved for any table).
- Failing `malloc` in user programs, and the freeing of parser structures and spans: values stand for them.
- ScopeTable.Scope.constructor: the table before `scope_init` adds the builtin methods to it.
- ScopeTable.Scope.RecursivelyDelete: says which entries remain; that each of the others is freed is not shown.
- Bucket chains are sequences: the relinking of entries through `next` in `scope_add`, `scope_del` and `scope_out`, and that each entry is freed once, are not shown.
- The nesting level and the count of table entries are unbounded numbers; the depth counter, which the code bounds, is modelled exactly.
- Interpreter nodes are values: the evaluator never changes a node, so sharing shows only to the collector, which is modelled on objects. The order in which the evaluator allocates nodes is not modelled.
- A load of a field that holds no pointer counts as a fault at once, even where the depth limit would have stopped evaluation before the use.
- Interpreter.Machine.ScopeExec: runs the program without the collection at its end, which `Collector.Store.Collect` models on its own.
- Semantics.LetLoop: a pair, a quoted pair or a user function as the key of a binding is a fault; the code takes the bytes of the node it points to for the name (usr/lisp/methods.c:438), so that `(let (((a b) 1)) 5)` gives 5 there.
- Interpreter.Machine.BindLet: the same.
- Integer values in `range` are bounded by the signed overflow at its end; counting up from a larger begin is a fault.
- The parser's recursion has no limit, as in the code; the machine stack it needs is not modelled.
- Lexer.TokenAt: does not print the message for an illegal character, and reads nothing beyond it.
- KernelHeap.Heap.HeapMalloc: unaligned requests whose full size fits in 32 bits, in a heap that ends 16 KiB below the top of memory. When growth reaches an address range without a page table the result is NeedsPageTable: the code would then allocate aligned from this same heap, whose blocks are never freed and are not modelled.
- KernelHeap.ServedIffPossible: counts growth into a range without a page table as impossible, for that reason.
- KernelHeap.Heap.GrowByPage: stops there, likewise.
- KernelHeap.Heap.MallocOrGrow: stops there, likewise.
- KernelHeap.Heap.AllocPage: the page-table entry it writes is stated in `HeapGrowth`, not here.
- HeapGrowth.GrownHeapIsMapped: covers growth within page tables that exist.
- HeapClient.ServeMalloc: refuses a request that would need a new page table.
- HeapClient.ServeFree: frees with the mended `heap_free`.
- KernelHeap.Heap.constructor: the heap starts and ends on page boundaries, as `memory_init` makes it; growth relies on that.
- HeapClient.Serve: frees with the mended `heap_free`; what the literal one does is stated by `KernelHeap.Heap.HeapFree`.
- Locking inside `kmalloc`, and `kmalloc` once the heap exists beyond `heap_malloc` itself.
- Paging.KernelMemory.MemoryInit: assumes that the kernel image, 1026 pages and the heap fit below 4 GiB, so that no address wraps, and at least one page of RAM, below which `memory_size - 4096` wraps; switching paging on and the page-fault handler are hardware.
- Paging.KernelMemory.AllocPage: is for the page after those already mapped, which is how `memory_init` and heap growth call it.
- Paging.KernelMemory.KmallocInternal: the bump phase only, below 4 GiB.
- LockSteps.Kernel.ForkTask: forking is one atomic step, although `move_stack` calls `kmalloc`, whose lock enables interrupts again (src/task.c:26-27, src/mutex.c:10), so that a timer tick may fall inside it.
- `delete_task`: `move_stack` leaves the old successor's `prev` stale, so unlinking by `prev` is not sound; copying stacks is hardware.
- LockSteps.Kernel.Unlock: is for the task that holds the mutex; `unlock` by another task would break exclusion.
- Locks.Act: assumes that a mutex is unlocked only by its holder and that a child does not take its parent's locks over.
- Locks.EveryTaskRuns: forks add tasks and are excluded from the stretch; that a waiter wins the lock in the end is not promised by the code.
- Ustar.LoadUstar: addresses do not wrap, and reading past the image ends the walk instead of reading on.
- The dictionary, input and colours of Wordle; only the marking is modelled.
- `memset` by words (src/common.c:30-48); where the modelled code clears memory, a loop over words stands for it.
- `src/queue.c` (its indices wrap modulo the current size), `array_insert`, `printf`, the line editors, drivers and system calls.

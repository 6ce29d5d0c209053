# GOAT-Plugs passes, modelled in Dafny

GOAT-Plugs is a set of GCC plugins that obfuscate the program being
compiled by rewriting GCC's GIMPLE statement lists. This project models the
rewriting logic of five plugins, and the two small runtime libraries that
two of them link into the obfuscated binary. It then proves what each
rewrite promises.

- **munger** finds every operand that denotes a readonly string constant
  (`get_str_cst`). It XOR-encodes the constant's bytes with 0xFF once per
  distinct constant (`encode`), and registers one `MUNGER_GLOBAL` per
  constant (`add_unique`). Before the statement it inserts
  `MUNGER_ARG = G; G = __decode(MUNGER_ARG, orig, len)`, and replaces the
  operand by `G`. `__decode` returns its cache argument when that is non-null,
  otherwise a fresh buffer holding the XOR-decoded bytes.
- **nopper** counts the statements of the whole program once. It turns the
  `numnops` quota (default five per statement) into `nops_per_stmt`, and
  inserts that many `mov %eax, %eax` asm statements before every statement.
  While no statement can be counted, the pass returns `-EINVAL`.
- **jpanic** spends a `maxjunk` budget shared by the whole compilation. On a
  random coin it inserts one junk statement before a statement. The junk is
  a copy or arithmetic into a sink, or a call to a new or existing empty
  `__func<n>`. Inside a junk function a call becomes a nop, and a
  `DECL_RESULT = sink` assignment follows the junk. That puts the cursor back
  on the same statement, so one statement can receive several junk pairs.
- **slimer** builds `numfuncs` empty functions `__func0..` at the start of
  the unit. It plants `__slimer_init` and one `__slimer_add_fn(&__func<i>, i)`
  per function at the top of `main`. Before up to `maxcalls` randomly chosen
  candidate statements it inserts a seven-statement sequence. That sequence
  loads `__funcs[time(0) % n_funcs]` and calls it. The runtime keeps the
  table in `__slimer_init`, `__slimer_add_fn` and `__slimer_get_funcs`.
- **hatch** finds the first call-graph node with a body named `main` and
  plants a call to the hook `__oreos` after its first statement.

GIMPLE is abstracted in module `IR` as datatypes:
- operands: string constants, variables with initializers, address-of,
  array and memory references, SSA temporaries;
- statements: assignments, calls, nops and asm;
- basic blocks, and functions of the call graph.

`Ops`/`SetOp` mirror `gimple_op`/`gimple_set_op`; a call's operands are its
lhs, callee, static chain, then its arguments. Every pass walks a block with
a cursor and never visits what it inserted. `IR.Interleave(pres, orig)` is
that shape: the original statements in order, with `pres[j]` inserted
immediately before original `j`.

Each plugin's static and global variables form a session class whose
methods update them in place:
- `MungerState` holds `readonlyz`, the string pool and the id counter;
- `NopperState` holds `n_nops`, `nops_per_stmt` and `counted_stmts`;
- `JPanicState` holds `max_junk`, `junk_fns` and the id counter;
- `SlimerState` holds `analyized_fns`, `fakes`, `max_calls` and the add_fn
  declaration flag;
- slimer's runtime table `__funcs` is `SlimerBuiltins.Runtime`, an `array`.

Function bodies are values that the passes take and return.

`rand()` is an oracle held by the session (`rand: nat -> nat`, with a
counter of draws). The methods that draw state which draw decides what:
- `JPanic.JPanicState.Visit` and `Slimer.SlimerState.Offer` state the coin
  of one loop visit;
- `JPanic.JPanicState.CreateJunkStmt` and `FindJunkFn` state the junk kind
  and the junk function picked.

New declarations and SSA temporaries take the next unused integer id.

Where the program's comments or declarations promise something its code
does not do, the model follows the code:
- **slimer's callee check.** The comment at `slimer/slimer.c:364-366` says
  calls to processed functions are skipped. The test at
  `slimer/slimer.c:368-370` skips calls whose callee is *not* processed.
  It also hands `has_been_processed` the call's `&f` operand, which never
  equals a declaration. So no call is ever a candidate, and injections go
  only before assignments. `Slimer.Processed`, `Slimer.Candidate` and
  `Slimer.PrologueStaysFirst` state this as written.
- **The init call.** `slimer/slimer_builtins.c:37` declares
  `__slimer_init(int n_funcs)` and allocates n_funcs slots. But
  `slimer/slimer.c:183` builds every `insert_call` call without
  arguments. The model's prologue is the call as built; see Findings.

## Model

| member | source | states |
|---|---|---|
| IR.SetOp | munger/munger.c:289 | setting operand i changes exactly that operand and keeps the statement's kind and tree code |
| IR.InsertBeforeStep | munger/munger.c:284-289 | splicing the insertions and the rewritten statement at the cursor extends the walked prefix by one original, and the cursor lands past it |
| IR.InterleaveLength | jpanic/jpanic.c:297-303 | after a walk every original statement survives, and the block grows by exactly the inserted statements |
| Options.StrnEqPrefix | jpanic/jpanic.c:362 | strncmp against an option name of at least n characters matches exactly the keys that start with the name's first n characters |
| Options.LastValueIsLastMatch | jpanic/jpanic.c:361-363 | the option value is that of the last matching argument, and there is none exactly when no argument matches |
| Options.ScanOption | nopper/nopper.c:189-191 | the option loop leaves the last matching value, or 0 when none matches |
| Names.NatToString | jpanic/jpanic.c:158 | %u prints at least one digit, and one digit exactly for numbers below ten |
| Names.NatToStringInjective | jpanic/jpanic.c:158 | different numbers print differently under %u |
| Names.FuncNameInjective | slimer/slimer.c:134 | two junk-function names are equal exactly when their ids are |
| MungerBuiltins.XorInvolutive | munger/munger_builtins.c:44-45 | XOR 0xFF undoes itself, so decoding an encoded string gives back its bytes |
| MungerBuiltins.XorChangesEveryByte | munger/munger.c:243-245 | encoding keeps the length and changes every byte, so no byte of a literal is stored in clear |
| MungerBuiltins.Decode | munger/munger_builtins.c:34-48 | a non-null cache is returned unchanged; otherwise a fresh buffer of `length` bytes holds the input XOR 0xFF |
| MungerBuiltins.DecodeEncodedTwice | munger/munger_builtins.c:38-47 | an encoded string decodes to the original on first use, and a second use through the cache returns the same buffer |
| Munger.GetStrCst | munger/munger.c:131-165 | a variable without initializer or with an integer initializer denotes no string; a bare STRING_CST denotes itself |
| Munger.GetStrCstPassesGate | munger/munger.c:150-161 | a string is found only through a readonly node or an ARRAY_REF at most two steps inside the operand, with the constant at most one step below that node |
| Munger.GetStrCstShapes | munger/munger.c:131-165 | `"lit"`, `&"lit"`, `&"lit"[0]` and `p = "lit"` denote the literal; a char-initialized or uninitialized variable, an SSA name, an integer, NULL, `&f` and an address of an unflagged address do not |
| Munger.FindDec | munger/munger.c:175-177 | the readonlyz scan finds a global exactly when the constant is registered, and the pair is in the registry |
| Munger.FindDecStable | munger/munger.c:220-222 | entries pushed later do not change what a registered constant's lookup returns |
| Munger.FindDecAppended | munger/munger.c:186-190 | a constant pushed onto a registry that lacked it maps to the new global |
| Munger.StrIndices | munger/munger.c:258-268 | the string operands of a statement, as strictly increasing operand indexes |
| Munger.EncodedOnceTrans | munger/munger.c:238-245 | two rounds of encoding compose into one: every constant first registered in either round is encoded once, the rest are untouched |
| Munger.StepEncodedOnce | munger/munger.c:271-276 | encode then add_unique encodes a constant exactly when it registers it |
| Munger.EncodedDecodesBack | munger/munger.c:243-245 | a constant the pass registered decodes, under __decode's XOR, back to its original bytes |
| Munger.MungedHasNoStrings | munger/munger.c:288-289 | after rewriting, no operand of the statement denotes a string constant |
| Munger.OperandLoopString | munger/munger.c:267-290 | a string operand adds its `MUNGER_ARG = G` and `G = __decode(MUNGER_ARG, orig, len)` pair and becomes G, keeping every invariant of the operand loop |
| Munger.OperandLoopOther | munger/munger.c:260-268 | a non-string operand changes nothing |
| Munger.AllMungedStep | munger/munger.c:306-308 | statements already munged stay munged as the registry grows and more constants are encoded |
| Munger.MungerState.constructor | munger/munger.c:98 | the session starts with an empty readonlyz |
| Munger.MungerState.Encode | munger/munger.c:233-246 | an unregistered constant's bytes become their XOR with 0xFF; a registered one is left alone |
| Munger.MungerState.AddUnique | munger/munger.c:169-193 | a registered constant returns its global and changes nothing; a new one gets a fresh global appended to readonlyz; the lookup then finds that global |
| Munger.MungerState.FreshTemp | munger/munger.c:279-280 | a new MUNGER_ARG temporary with an unused id |
| Munger.MungerState.EncodeAndRegister | munger/munger.c:271-276 | the encode and add_unique step on pool and registry |
| Munger.MungerState.InsertDecodeBn | munger/munger.c:200-229 | the decode call stores into the constant's registered global, and passes the temporary, the original operand and the string's length |
| Munger.MungerState.ProcessReadonlys | munger/munger.c:250-292 | in operand order, every string operand gets its decode pair, on a fresh temporary of its own, inserted before the statement and is replaced by its global; nothing else changes; newly registered constants are encoded once |
| Munger.MungerState.ProcessOperand | munger/munger.c:260-290 | one operand-loop iteration keeps the loop invariant: a string operand adds its decode pair and becomes its global, any other operand changes nothing |
| Munger.MungerState.MungeString | munger/munger.c:270-285 | for a string operand: the constant is encoded if new and registered under the returned global, the temporary is fresh, and the call is `G = __decode(temp, orig, len)` with len the constant's length |
| Munger.TempsDistinct | munger/munger.c:279-280 | every decode pair inserted before a statement has its own MUNGER_ARG temporary, each later pair's larger than the earlier ones |
| Munger.MungerState.MungeNext | munger/munger.c:307-308 | one pass of the statement loop: the statement at the cursor is munged, its pairs go right before it, the cursor moves past it, and everything munged so far stays munged; every string registered since the block began is an operand of a statement visited so far |
| Munger.MungerState.MungeBlock | munger/munger.c:307-308 | the block becomes its munged originals with each one's insertions right before it; readonlyz only grows; each new constant is encoded exactly once; every newly registered constant is an operand of one of the block's statements (with NoStringsNoChange, a block that denotes no string leaves readonlyz and the pool unchanged) |
| Munger.MungerState.Exec | munger/munger.c:299-315 | every block of the function is munged as MungeBlock states, under the final registry and pool, and every newly registered constant is an operand of a statement of one of its blocks |
| Munger.RegistryFrame | munger/munger.c:169-193 | a registry without repeated keys that only grew by appending but registers no new constant is unchanged |
| Munger.NoStringsNoChange | munger/munger.c:299-315 | a walk whose statements denote no string constant registers and encodes nothing: readonlyz and the pool are as they were |
| Nopper.AsUnsigned32 | nopper/nopper.c:106-117 | `-EINVAL` returned through `unsigned int` is congruent to it modulo 2^32 and below 2^32 |
| Nopper.CountStmts | nopper/nopper.c:74-98 | count_stmts is the number of statements of every function with a body |
| Nopper.NopsPerStmt | nopper/nopper.c:119-122 | the per-statement share is the quota divided by the count, rounded down; without a positive numnops it is 5 |
| Nopper.QuotaSpent | nopper/nopper.c:119-131 | run on every function with a body, the pass inserts exactly k nops per counted statement in total, k times the count: never more than the quota, and fewer than one nop per counted statement short of it |
| Nopper.PadLength | nopper/nopper.c:128-131 | every statement becomes k+1 statements |
| Nopper.PadAt | nopper/nopper.c:128-131 | original statement j sits at j*(k+1)+k, with nops in the k slots before it |
| Nopper.StripPad | nopper/nopper.c:64-70 | removing nops from the padded block gives what removing them from the original gives: padding adds only nops |
| Nopper.StripNoNops | nopper/nopper.c:128-131 | a block without nops of its own is recovered exactly |
| Nopper.PadNopCount | nopper/nopper.c:128-131 | padding adds exactly k nops per statement |
| Nopper.InsertNop | nopper/nopper.c:65-70 | one nop goes immediately before the cursor's statement, and everything else keeps its order |
| Nopper.InsertNops | nopper/nopper.c:130-131 | k insert_nop calls on a copy of the cursor put k nops right before the statement |
| Nopper.PadBlock | nopper/nopper.c:129-131 | the statement loop leaves the block padded with k nops before each original |
| Nopper.PadBody | nopper/nopper.c:128-131 | every block of the function is padded |
| Nopper.NumnopsPrefix | nopper/nopper.c:190 | the option is recognized on its first six characters, any key starting "numnop" |
| Nopper.NopperState.constructor | nopper/nopper.c:189-191 | n_nops is the last numnops value or 0, and nothing is counted yet |
| Nopper.NopperState.Exec | nopper/nopper.c:106-134 | the first run that finds statements fixes the count and the share; while none are found it returns -EINVAL and changes nothing; after that every block is padded with the share |
| JPanic.JunkTypeOf | jpanic/jpanic.c:77-86 | rand() % N_JUNK_TYPES picks the enum member with that number: 0 ASSIGN, 1 ADD, 2 SUB, 3 MUL, 4 NEW_FN, 5 OLD_FN |
| JPanic.JunkFnGetsNoCalls | jpanic/jpanic.c:249-269 | nothing inserted into a junk function is a call |
| JPanic.MaxJunkOption | jpanic/jpanic.c:361-366 | max_junk is the last maxjunk value when that is not negative, and 0 when it is negative or there is none |
| JPanic.MaxJunkKey | jpanic/jpanic.c:362 | the option is recognized on exactly the keys starting "maxjunk" |
| JPanic.JunkNamesDistinct | jpanic/jpanic.c:154-158 | the names `__func1`, `__func2`, ... never repeat |
| JPanic.JPanicState.constructor | jpanic/jpanic.c:361-366 | the budget from the options, no junk functions, a fresh sink |
| JPanic.JPanicState.BuildJunkAssign | jpanic/jpanic.c:110-116 | `sink = _junk` with a fresh temporary |
| JPanic.JPanicState.BuildJunkMath | jpanic/jpanic.c:121-146 | `sink = _junk OP _junk` with two fresh temporaries and the code MathCode picks |
| JPanic.JPanicState.CreateJunkFn | jpanic/jpanic.c:150-197 | a new function, not in junk_fns before, appended to it and named `__func<id>` with the static id pre-incremented |
| JPanic.JPanicState.FindJunkFn | jpanic/jpanic.c:200-209 | with no junk function, a new one; otherwise junk_fns[rand() % len] and nothing else changes |
| JPanic.JPanicState.IsJunkFn | jpanic/jpanic.c:213-223 | true exactly when the declaration is in junk_fns |
| JPanic.JPanicState.CreateJunkStmt | jpanic/jpanic.c:229-276 | the kind drawn decides the statement: copy, arithmetic with that code, a call to a new junk function, or a call to find_junk_fn's pick (a new one when there is none, else the one the next draw selects); either call is a nop inside a junk function; one draw is used, two when an existing function is picked; junk_fns gains the one new function exactly when one is made (a new-function draw, or an existing-function draw with none yet, outside a junk function) and is otherwise unchanged; the id counter advances by one for a copy or a new function, two for arithmetic, and not at all otherwise |
| JPanic.JPanicState.CreateDataJunk | jpanic/jpanic.c:239-247 | a copy draw gives `sink = _junk` on one fresh id, an arithmetic draw `sink = _junk OP _junk` with its code on two, and junk_fns is untouched |
| JPanic.JPanicState.CreateCallJunk | jpanic/jpanic.c:249-269 | inside a junk function a nop and nothing else changes; otherwise a call to a new function (appended to junk_fns under the next id) or to find_junk_fn's pick, with the draws each case uses |
| JPanic.JPanicState.InsertJunk | jpanic/jpanic.c:301-314 | one budget unit buys the junk before the statement and, in a junk function, the result assignment after it; the cursor moves one past the junk; junk_fns is unchanged unless the junk is a call to the one function just added |
| JPanic.JPanicState.Visit | jpanic/jpanic.c:299-314 | junk is inserted exactly when budget remains and the coin drawn is odd; otherwise nothing changes, and a coin is drawn only while budget remains; a junk function is added only when the inserted junk calls it |
| JPanic.JPanicState.JunkifyBlock | jpanic/jpanic.c:298-315 | the block becomes its originals with well-formed junk before each, and the number of statements inserted is the budget spent, twice that in a junk function; with no budget left the block is unchanged |
| JPanic.JPanicState.Exec | jpanic/jpanic.c:280-322 | every block is junked under one shared budget, and the insertions over the body equal the budget spent |
| JPanic.CallsAreOriginal | jpanic/jpanic.c:250-268 | every call in a walked junk-function block was already there |
| JPanic.JunkFnGainsNoCalls | jpanic/jpanic.c:249-269 | a junk function gains no calls in any block |
| JPanic.BlockGrowth | jpanic/jpanic.c:299-314 | the body grows by exactly the statements inserted |
| JPanic.WalkInsertStay | jpanic/jpanic.c:302-313 | inside a junk function, the cursor comes back to the same original after a junk pair |
| SlimerBuiltins.TableInit | slimer/slimer_builtins.c:37-40 | calloc gives n slots, all NULL |
| SlimerBuiltins.AddFnsFill | slimer/slimer_builtins.c:43-46 | add_fn for i = 0.. on a table of at least that many slots fills those slots in order and leaves the rest |
| SlimerBuiltins.AddFnsOverflow | slimer/slimer_builtins.c:43-46 | with more functions than slots, some add_fn writes out of bounds |
| SlimerBuiltins.FilledTable | slimer/slimer_builtins.c:37-46 | init(n) then add_fn for every function gives the table mapping slot i to function i |
| SlimerBuiltins.Runtime.constructor | slimer/slimer_builtins.c:28 | `__funcs` starts NULL |
| SlimerBuiltins.Runtime.Init | slimer/slimer_builtins.c:37-40 | a fresh zeroed table of n slots; NULL for a negative n |
| SlimerBuiltins.Runtime.AddFn | slimer/slimer_builtins.c:43-46 | slot index becomes fn and no other slot changes |
| SlimerBuiltins.Runtime.GetFuncs | slimer/slimer_builtins.c:31-34 | returns the table and changes nothing |
| SlimerBuiltins.Runtime.Fill | slimer/slimer_builtins.c:37-46 | the corrected prologue (init(n_funcs), then add_fn in index order) run against the runtime leaves slot i holding function i; for the prologue as built see Slimer.InitAsWrittenLosesSize |
| Slimer.Clamp | slimer/slimer.c:437-441 | a negative numfuncs becomes 0, any other is kept; maxcalls becomes 0 when negative or when there are no junk functions, and is kept otherwise |
| Slimer.KeysExclusive | slimer/slimer.c:431-433 | no key matches both options |
| Slimer.ParseOptions | slimer/slimer.c:430-434 | each option is the last matching value, or 0 |
| Slimer.PrologueCalls | slimer/slimer.c:323-339 | every prologue statement is a direct call through `&f` |
| Slimer.PrologueStaysFirst | slimer/slimer.c:358-370 | calls through `&f` are never candidates, so the prologue stays intact at the top of main |
| Slimer.InitAsWrittenLosesSize | slimer/slimer.c:177-189 | the init call as built passes no size: the table's size is whatever the register held, and with a zero there the first add_fn overflows |
| Slimer.InitFillsTable | slimer/slimer.c:323-339 | with n_funcs passed, the prologue fills slot i with junk function i whatever the register held |
| Slimer.InjectedLength | slimer/slimer.c:237-285 | each injection is seven statements, so a block grows by seven per injection and by nothing else |
| Slimer.InjectionAddress | slimer/slimer.c:237-274 | the first five injected statements compute the address of slot time % n_funcs of the table |
| Slimer.InjectionCallsJunkFn | slimer/slimer.c:276-285 | the load reads an in-range slot, which the table filled by the corrected prologue (init(n_funcs), then add_fn in index order) maps to a junk function; for the prologue as built see Slimer.InitAsWrittenLosesSize |
| Slimer.SlimerState.constructor | slimer/slimer.c:429-441 | the clamped options, then n_funcs junk functions with fresh ids and nothing analysed |
| Slimer.SlimerState.BuildJunkFn | slimer/slimer.c:128-174 | a fresh function named `__func<id>` |
| Slimer.SlimerState.GenFakeFuncs | slimer/slimer.c:192-199 | fakes becomes exactly n_funcs new functions, the i-th named `__func<i>` |
| Slimer.SlimerState.HasBeenProcessed | slimer/slimer.c:89-105 | true exactly when the tree is an analysed declaration or a junk function |
| Slimer.SlimerState.InsertCall | slimer/slimer.c:177-189 | the call, built without arguments, goes right before the statement and the declaration is recorded as analysed |
| Slimer.SlimerState.InsertAddFn | slimer/slimer.c:296-319 | `__slimer_add_fn(&fakes[index], index)` goes before the statement; the declaration is recorded only the first time |
| Slimer.SlimerState.InsertSlimerInit | slimer/slimer.c:323-339 | main's first block becomes the argument-less init call and the add_fn calls in index order, then its old statements; the analysed list grows as the code pushes |
| Slimer.SlimerState.InsertCallToJunkFn | slimer/slimer.c:202-290 | the seven statements on five fresh temporaries go, in order, right before the statement |
| Slimer.SlimerState.Offer | slimer/slimer.c:361-376 | an injection goes before the statement exactly when it is a candidate, budget remains and the coin drawn is even, paid by one unit; a coin is drawn exactly for a candidate with budget; the injection is the seven-statement sequence on the next five ids, which it consumes; otherwise nothing changes, the id counter included |
| Slimer.SlimerState.SlimeBlock | slimer/slimer.c:359-377 | the block becomes its originals with at most one injection before each candidate; the injections equal the budget spent, and there are none without junk functions |
| Slimer.SlimerState.SlimeBody | slimer/slimer.c:358-377 | every block is walked under one budget, and injections equal the budget spent |
| Slimer.SlimerState.SlimeFunction | slimer/slimer.c:354-381 | main first gets the prologue, then the body is walked, then the function is recorded as analysed |
| Slimer.SlimerState.Exec | slimer/slimer.c:342-382 | a processed or external function is left unchanged; any other is slimed and marked, so a second run leaves it alone |
| Hatch.FindMainFrom | hatch/hatch.c:88-96 | the first node with a body named main, or none when there is no such node |
| Hatch.OpenUpTheMagic | hatch/hatch.c:57-75 | the hook call is the one statement added to main's first block, placed after its first statement; nothing else changes |
| Hatch.Exec | hatch/hatch.c:82-105 | only the first main is changed, by open_up_the_magic; without a main, nothing changes |
| Hatch.ExecTouchesOnlyMain | hatch/hatch.c:98-103 | every other node is untouched, and main grows by exactly one statement |

## Left out

- GCC's own machinery is not part of this model: tree and gimple
  construction, SSA renaming and the `TODO_update_ssa` repair, CFG cleanup,
  and `push_cfun`/`pop_cfun`. Declarations and temporaries are just fresh
  integer ids.
- Plugin registration, the GCC version checks, `--help` info, `printf`
  diagnostics and `GOAT_DEBUG` dumps produce no IR change and are left out.
- hatch's `system()` call spawning a listener at plugin load is I/O, and is
  left out. `hatch/hatch_builtins.c` (the `__oreos` hook's body) is not part
  of this model.
- `rand()`, `srand(time(NULL))` and the target's `time(0)` are inputs: an
  oracle in the session, and a parameter of `Slimer.InjectionAddress`.
- `atoi` is not modelled: option values arrive as integers.
- C `int` overflow is not modelled, e.g. nopper's `counted_stmts * 5` or an
  `int` option beyond range.
- Nopper.AsUnsigned32 models only the conversion of the return value; other
  integers are unbounded.
- Allocation failure (`xmalloc`, `calloc` with a positive size) is left out.
- Munger.GetStrCst: `TREE_OPERAND` on a node without operands is undefined
  in C; the model returns no string there. An ARRAY_REF's index and asm
  operands are not modelled.
- jpanic's `build_junk_*` define the sink SSA name afresh in every junk
  statement; the model keeps one sink id. The once-only
  `init_jpanic_global` and `initted` flag are folded into the constructor.
- Junk-function bodies (an empty function with a result declaration) are
  not modelled; only their ids and `__func<n>` names are.
- The declarations of `__decode`, `time`, `__slimer_get_funcs` and
  `__slimer_add_fn` are given ids fixed for the session. The once-built
  `insert_call_to_junk_fn` statics are folded in the same way.
- `sizeof(void *)` is taken as 8 (a 64-bit target).
- Slimer.EvalStmt evaluates only the non-negative arithmetic the injection
  performs; loads and indirect calls are not evaluated.
- Slimer.SlimerState.Exec requires main's first block to hold a statement.
  `insert_slimer_init` takes `gsi_stmt` of that block and would crash
  without one.
- Hatch.OpenUpTheMagic leaves a main without blocks unchanged. The C code
  would insert into whatever block follows the entry block.
- SlimerBuiltins.Runtime.AddFn requires an in-range index. An out-of-range
  write is undefined behaviour in C; `SlimerBuiltins.AddFns` models it as a
  failed table (None).

## Findings

| source | as written | input that shows it | evidently intended | confidence | as-written member | corrected member |
|---|---|---|---|---|---|---|
| slimer/slimer.c:323-335 | `__slimer_init` is declared taking one `int` (line 329) but called through `insert_call`, which builds a call with no arguments (line 183). At run time the table is sized by whatever the argument register holds | numfuncs=1 and a 0 in the first argument register: `__slimer_init` allocates 0 slots and `__slimer_add_fn(&__func0, 0)` writes past the end | call `__slimer_init(n_funcs)`, so the table has one slot per junk function | not executed | Slimer.InitAsWrittenLosesSize | Slimer.InitFillsTable |

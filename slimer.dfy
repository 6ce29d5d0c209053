/** The slimer pass: numfuncs empty junk functions are built at the start
    of the unit, main's entry gets a prologue that registers them in the
    runtime table, and before up to maxcalls randomly chosen statements a
    seven-statement sequence calls the table entry picked by the time of
    day. */
module Slimer {
  import opened IR
  import opened Options
  import opened Names
  import opened SlimerBuiltins

  /** sizeof(void *) on the compiling host, taken as a 64-bit target. */
  const PtrSize: int := 8

  /** plugin_init's clamps: a negative numfuncs becomes 0, and maxcalls
      becomes 0 when negative or when there are no junk functions. */
  function Clamp(numfuncs: int, maxcalls: int): (r: (int, int))
    ensures r.0 >= 0 && r.1 >= 0 && (r.0 == 0 ==> r.1 == 0)
    ensures numfuncs >= 0 ==> r.0 == numfuncs
    ensures numfuncs < 0 ==> r.0 == 0
    ensures maxcalls < 0 ==> r.1 == 0
    ensures numfuncs > 0 && maxcalls >= 0 ==> r.1 == maxcalls
  {
    var n := if numfuncs < 0 then 0 else numfuncs;
    (n, if maxcalls < 0 || n == 0 then 0 else maxcalls)
  }

  /** No key matches both options on their first eight characters. */
  lemma KeysExclusive(key: string)
    ensures !(StrnEq("numfuncs", key, 8) && StrnEq("maxcalls", key, 8))
  {
    StrnEqPrefix("numfuncs", key, 8);
    StrnEqPrefix("maxcalls", key, 8);
  }

  /** plugin_init's option loop: numfuncs, else maxcalls, last match wins. */
  method ParseOptions(args: seq<PluginArg>) returns (numfuncs: int, maxcalls: int)
    ensures numfuncs == LastValue(args, "numfuncs", 8).GetOr(0)
    ensures maxcalls == LastValue(args, "maxcalls", 8).GetOr(0)
  {
    numfuncs, maxcalls := 0, 0;
    for i := 0 to |args|
      invariant numfuncs == LastValue(args[..i], "numfuncs", 8).GetOr(0)
      invariant maxcalls == LastValue(args[..i], "maxcalls", 8).GetOr(0)
    {
      assert args[..i + 1][..i] == args[..i];
      KeysExclusive(args[i].key);
      if StrnEq("numfuncs", args[i].key, 8) {
        numfuncs := args[i].value;
      } else if StrnEq("maxcalls", args[i].key, 8) {
        maxcalls := args[i].value;
      }
    }
    assert args[..|args|] == args;
  }

  /** has_been_processed's test: the tree is one of the analysed
      declarations or a junk function. Only a bare declaration can match;
      a call's callee operand is `&f`, never `f`. */
  predicate Processed(x: Operand, analyzed: seq<FnId>, fakes: seq<FnId>) {
    x.FnDecl? && (x.fid in analyzed || x.fid in fakes)
  }

  /** The statements slimer_exec may put junk before: assignments, and
      calls that pass the callee test. */
  predicate Candidate(s: Stmt, analyzed: seq<FnId>, fakes: seq<FnId>) {
    s.Assign? || (s.Call? && Processed(s.callee, analyzed, fakes))
  }

  /** `__slimer_init()` as built: the declaration takes one int, but
      insert_call builds every call without arguments. */
  function InitCallAsWritten(decl: FnId): Stmt {
    CallTo(decl, [])
  }

  /** `__slimer_init(n_funcs)`, the call the runtime expects (not built by
      the pass; see InitFillsTable). */
  function InitCall(decl: FnId, nFuncs: int): Stmt {
    CallTo(decl, [IntCst(nFuncs)])
  }

  /** `__slimer_add_fn(&fake, index)`. */
  function AddFnCall(addFn: FnId, fake: FnId, index: int): Stmt {
    CallTo(addFn, [FnAddr(fake), IntCst(index)])
  }

  function AddFnCalls(addFn: FnId, fakes: seq<FnId>, k: nat): (r: seq<Stmt>)
    requires k <= |fakes|
    ensures |r| == k && forall i :: 0 <= i < k ==> r[i] == AddFnCall(addFn, fakes[i], i)
  {
    seq(k, i requires 0 <= i < k => AddFnCall(addFn, fakes[i], i))
  }

  /** What insert_slimer_init leaves before main's first statement. */
  function Prologue(initDecl: FnId, addFn: FnId, fakes: seq<FnId>, nFuncs: nat): seq<Stmt>
    requires nFuncs <= |fakes|
  {
    [InitCallAsWritten(initDecl)] + AddFnCalls(addFn, fakes, nFuncs)
  }

  /** insert_call_to_junk_fn's seven statements on temporaries t .. t+4:
      time_tmp = time(0); rv = time_tmp % n_funcs; tmp = get_funcs();
      rv = rv * sizeof(void *); fn = tmp + rv; the_fn = *fn; the_fn(). */
  function Injection(timeFn: FnId, getFuncs: FnId, nFuncs: int, t: TempId): seq<Stmt> {
    [ Call(Ssa(t), FnAddr(timeFn), [IntCst(0)]),
      Assign(TruncMod, Ssa(t + 1), [Ssa(t), IntCst(nFuncs)]),
      Call(Ssa(t + 2), FnAddr(getFuncs), []),
      Assign(Mult, Ssa(t + 1), [Ssa(t + 1), IntCst(PtrSize)]),
      Assign(Plus, Ssa(t + 3), [Ssa(t + 2), Ssa(t + 1)]),
      Assign(Single, Ssa(t + 4), [MemRef(Ssa(t + 3))]),
      Call(Null, Ssa(t + 4), []) ]
  }

  /** What may sit before original statement s after the walk: nothing, or
      one injection when s is a candidate. */
  predicate SlimePre(p: seq<Stmt>, s: Stmt, analyzed: seq<FnId>, fakes: seq<FnId>, timeFn: FnId, getFuncs: FnId, nFuncs: int) {
    p == [] ||
    (Candidate(s, analyzed, fakes) && |p| == 7 && p[0].Call? && p[0].lhs.Ssa? &&
     p == Injection(timeFn, getFuncs, nFuncs, p[0].lhs.tid))
  }

  ghost predicate AllSlimed(pres: seq<seq<Stmt>>, orig: seq<Stmt>, analyzed: seq<FnId>, fakes: seq<FnId>,
                            timeFn: FnId, getFuncs: FnId, nFuncs: int)
  {
    |pres| == |orig| && forall j :: 0 <= j < |pres| ==> SlimePre(pres[j], orig[j], analyzed, fakes, timeFn, getFuncs, nFuncs)
  }

  /** The number of injections in one block's insertion lists. */
  function Injected(pres: seq<seq<Stmt>>): nat {
    if pres == [] then 0 else Injected(pres[..|pres| - 1]) + (if pres[|pres| - 1] == [] then 0 else 1)
  }

  /** The number of injections over a whole function body. */
  function SumInjected(pres: seq<seq<seq<Stmt>>>): nat {
    if pres == [] then 0 else SumInjected(pres[..|pres| - 1]) + Injected(pres[|pres| - 1])
  }

  lemma SumInjectedSnoc(pres: seq<seq<seq<Stmt>>>, p: seq<seq<Stmt>>)
    ensures SumInjected(pres + [p]) == SumInjected(pres) + Injected(p)
  {
    assert (pres + [p])[..|pres|] == pres;
  }

  /** Each injection is seven statements, so a block grows by seven per
      injection and by nothing else. */
  lemma {:induction false} InjectedLength(pres: seq<seq<Stmt>>, orig: seq<Stmt>, analyzed: seq<FnId>, fakes: seq<FnId>,
                                          timeFn: FnId, getFuncs: FnId, nFuncs: int)
    requires AllSlimed(pres, orig, analyzed, fakes, timeFn, getFuncs, nFuncs)
    ensures |Interleave(pres, orig)| == |orig| + 7 * Injected(pres)
  {
    InterleaveLength(pres, orig);
    TotalLenSeven(pres, orig, analyzed, fakes, timeFn, getFuncs, nFuncs);
  }

  lemma {:induction false} TotalLenSeven(pres: seq<seq<Stmt>>, orig: seq<Stmt>, analyzed: seq<FnId>, fakes: seq<FnId>,
                                         timeFn: FnId, getFuncs: FnId, nFuncs: int)
    requires AllSlimed(pres, orig, analyzed, fakes, timeFn, getFuncs, nFuncs)
    ensures TotalLen(pres) == 7 * Injected(pres)
  {
    if pres != [] {
      var n := |pres| - 1;
      TotalLenSeven(pres[..n], orig[..n], analyzed, fakes, timeFn, getFuncs, nFuncs);
      assert SlimePre(pres[n], orig[n], analyzed, fakes, timeFn, getFuncs, nFuncs);
    }
  }

  /** The state of the walk over block b: the first j originals passed,
      with `pres` inserted before them, and the cursor on original j. */
  ghost predicate SlimeWalk(b: Block, b': Block, i: nat, pres: seq<seq<Stmt>>, j: nat, analyzed: seq<FnId>, fakes: seq<FnId>,
                            timeFn: FnId, getFuncs: FnId, nFuncs: int, spent: int)
  {
    j <= |b| && AllSlimed(pres, b[..j], analyzed, fakes, timeFn, getFuncs, nFuncs) &&
    b' == Interleave(pres, b[..j]) + b[j..] && i == |Interleave(pres, b[..j])| &&
    Injected(pres) == spent
  }

  /** Passing original j, with p (empty or one injection) inserted before it. */
  lemma SlimeStep(b: Block, b0: Block, i: nat, pres: seq<seq<Stmt>>, j: nat, analyzed: seq<FnId>, fakes: seq<FnId>,
                  timeFn: FnId, getFuncs: FnId, nFuncs: int, spent: int, p: seq<Stmt>, b': Block)
    requires SlimeWalk(b, b0, i, pres, j, analyzed, fakes, timeFn, getFuncs, nFuncs, spent) && i < |b0|
    requires SlimePre(p, b0[i], analyzed, fakes, timeFn, getFuncs, nFuncs)
    requires p == [] ==> b' == b0
    requires p != [] ==> b' == b0[..i] + p + b0[i..]
    ensures SlimeWalk(b, b', i + |p| + 1, pres + [p], j + 1, analyzed, fakes, timeFn, getFuncs, nFuncs,
                      spent + (if p == [] then 0 else 1))
  {
    SlimeSplice(b, b0, i, pres, j, p, b');
    assert b[..j + 1] == b[..j] + [b[j]];
    assert (pres + [p])[..|pres|] == pres;
  }

  /** The sequence facts behind SlimeStep. */
  lemma SlimeSplice(b: Block, b0: Block, i: nat, pres: seq<seq<Stmt>>, j: nat, p: seq<Stmt>, b': Block)
    requires j < |b| && |pres| == j && b0 == Interleave(pres, b[..j]) + b[j..] && i == |Interleave(pres, b[..j])|
    requires p == [] ==> b' == b0
    requires p != [] ==> b' == b0[..i] + p + b0[i..]
    ensures i < |b0| && b0[i] == b[j]
    ensures b' == Interleave(pres + [p], b[..j + 1]) + b[j + 1..] && i + |p| + 1 == |Interleave(pres + [p], b[..j + 1])|
  {
    InsertBeforeStep(b0, i, pres, b[..j], b, j, p, b[j]);
    assert b[..j] + [b[j]] == b[..j + 1];
    assert b0[i..] == [b0[i]] + b0[i + 1..];
  }

  lemma SlimeDone(b: Block, b': Block, i: nat, pres: seq<seq<Stmt>>, j: nat, analyzed: seq<FnId>, fakes: seq<FnId>,
                  timeFn: FnId, getFuncs: FnId, nFuncs: int, spent: int)
    requires SlimeWalk(b, b', i, pres, j, analyzed, fakes, timeFn, getFuncs, nFuncs, spent) && i >= |b'|
    ensures b' == Interleave(pres, b) && AllSlimed(pres, b, analyzed, fakes, timeFn, getFuncs, nFuncs) && Injected(pres) == spent
  {
    assert b[..j] == b;
  }

  /** Every block of a body walked. */
  ghost predicate BlocksSlimed(blocks: seq<Block>, blocks': seq<Block>, pres: seq<seq<seq<Stmt>>>,
                               analyzed: seq<FnId>, fakes: seq<FnId>, timeFn: FnId, getFuncs: FnId, nFuncs: int)
  {
    |blocks'| == |blocks| == |pres| &&
    forall k :: 0 <= k < |blocks| ==>
      |pres[k]| == |blocks[k]| && blocks'[k] == Interleave(pres[k], blocks[k]) &&
      AllSlimed(pres[k], blocks[k], analyzed, fakes, timeFn, getFuncs, nFuncs)
  }

  lemma BlocksSlimedStep(blocks: seq<Block>, k: nat, out: seq<Block>, pres: seq<seq<seq<Stmt>>>,
                         analyzed: seq<FnId>, fakes: seq<FnId>, timeFn: FnId, getFuncs: FnId, nFuncs: int,
                         b': Block, p: seq<seq<Stmt>>)
    requires k < |blocks| && BlocksSlimed(blocks[..k], out, pres, analyzed, fakes, timeFn, getFuncs, nFuncs)
    requires |p| == |blocks[k]| && b' == Interleave(p, blocks[k]) && AllSlimed(p, blocks[k], analyzed, fakes, timeFn, getFuncs, nFuncs)
    ensures BlocksSlimed(blocks[..k + 1], out + [b'], pres + [p], analyzed, fakes, timeFn, getFuncs, nFuncs)
  {
    assert blocks[..k + 1] == blocks[..k] + [blocks[k]];
  }

  /** A call through `&f` is never a candidate, so main's prologue (all
      such calls) reaches the final body intact and in front. */
  lemma {:induction false} PrologueStaysFirst(pro: seq<Stmt>, b: Block, pres: seq<seq<Stmt>>, analyzed: seq<FnId>, fakes: seq<FnId>,
                                              timeFn: FnId, getFuncs: FnId, nFuncs: int)
    requires forall m :: 0 <= m < |pro| ==> pro[m].Call? && pro[m].callee.AddrOf?
    requires AllSlimed(pres, pro + b, analyzed, fakes, timeFn, getFuncs, nFuncs)
    ensures Interleave(pres, pro + b) == pro + Interleave(pres[|pro|..], b)
  {
    var n := |pro|;
    assert pres == pres[..n] + pres[n..];
    forall m | 0 <= m < n ensures pres[..n][m] == [] {
      assert (pro + b)[m] == pro[m];
      assert SlimePre(pres[m], pro[m], analyzed, fakes, timeFn, getFuncs, nFuncs);
    }
    InterleaveAppend(pres[..n], pro, pres[n..], b);
    InterleaveNothing(pres[..n], pro);
  }

  lemma PrologueCalls(initDecl: FnId, addFn: FnId, fakes: seq<FnId>, nFuncs: nat)
    requires nFuncs <= |fakes|
    ensures forall m :: 0 <= m < |Prologue(initDecl, addFn, fakes, nFuncs)| ==>
              Prologue(initDecl, addFn, fakes, nFuncs)[m].Call? && Prologue(initDecl, addFn, fakes, nFuncs)[m].callee.AddrOf?
  {
    var pro := Prologue(initDecl, addFn, fakes, nFuncs);
    forall m | 0 <= m < |pro| ensures pro[m].Call? && pro[m].callee.AddrOf? {
      if m > 0 {
        assert pro[m] == AddFnCall(addFn, fakes[m - 1], m - 1);
      }
    }
  }

  /** The int __slimer_init receives: its argument when the call passes
      one, else whatever the parameter register held (`garbage`). */
  function InitArg(call: Stmt, garbage: int): int
    requires call.Call?
  {
    if |call.args| > 0 && call.args[0].IntCst? then call.args[0].value else garbage
  }

  /** The runtime table after main's prologue runs with init call `init`
      and add_fn(&fs[i], i) for every i; None when init fails or an add_fn
      writes out of bounds. */
  function PrologueTable(init: Stmt, fs: seq<FnId>, garbage: int): Option<seq<Slot>>
    requires init.Call?
  {
    var n := InitArg(init, garbage);
    if n < 0 then None else AddFns(TableInit(n), fs)
  }

  /** As built, the table's size is whatever the register held: with one
      junk function and a zero there, the first add_fn writes past the end. */
  lemma InitAsWrittenLosesSize(decl: FnId, fs: seq<FnId>)
    requires |fs| >= 1
    ensures forall g :: InitArg(InitCallAsWritten(decl), g) == g
    ensures PrologueTable(InitCallAsWritten(decl), fs, 0).None?
  {
    AddFnsOverflow(TableInit(0), fs);
  }

  /** With the size passed, the prologue fills slot i with fs[i] whatever
      the register held. */
  lemma InitFillsTable(decl: FnId, fs: seq<FnId>, garbage: int)
    ensures PrologueTable(InitCall(decl, |fs|), fs, garbage) == Some(seq(|fs|, i requires 0 <= i < |fs| => Some(fs[i])))
  {
    FilledTable(fs);
  }

  function Value(x: Operand, env: map<TempId, int>): int {
    if x.Ssa? && x.tid in env then env[x.tid] else if x.IntCst? then x.value else 0
  }

  /** One statement: the two known calls set their result, and the
      arithmetic codes compute on non-negative values (where C's unsigned
      % agrees with Dafny's). Loads and other statements leave the
      temporaries alone. */
  function EvalStmt(s: Stmt, env: map<TempId, int>, timeFn: FnId, getFuncs: FnId, time: nat, base: int): map<TempId, int> {
    if s.Call? && s.lhs.Ssa? then
      (if s.callee == FnAddr(timeFn) then env[s.lhs.tid := time]
       else if s.callee == FnAddr(getFuncs) then env[s.lhs.tid := base]
       else env)
    else if s.Assign? && s.lhs.Ssa? && |s.rhs| == 2 then
      var a := Value(s.rhs[0], env);
      var c := Value(s.rhs[1], env);
      match s.code
      case TruncMod => if c > 0 then env[s.lhs.tid := a % c] else env
      case Mult => env[s.lhs.tid := a * c]
      case Plus => env[s.lhs.tid := a + c]
      case _ => env
    else env
  }

  /** The temporaries after the first five injected statements run in
      order from `env`. */
  function RunFive(p: seq<Stmt>, env: map<TempId, int>, timeFn: FnId, getFuncs: FnId, time: nat, base: int): map<TempId, int>
    requires |p| >= 5
  {
    var e1 := EvalStmt(p[0], env, timeFn, getFuncs, time, base);
    var e2 := EvalStmt(p[1], e1, timeFn, getFuncs, time, base);
    var e3 := EvalStmt(p[2], e2, timeFn, getFuncs, time, base);
    var e4 := EvalStmt(p[3], e3, timeFn, getFuncs, time, base);
    EvalStmt(p[4], e4, timeFn, getFuncs, time, base)
  }

  /** Running the first five injected statements leaves in `fn` the
      address of slot time % n_funcs of the table at `base`. */
  lemma InjectionAddress(timeFn: FnId, getFuncs: FnId, n: int, t: TempId, time: nat, base: int, env: map<TempId, int>)
    requires n > 0 && timeFn != getFuncs
    ensures var env' := RunFive(Injection(timeFn, getFuncs, n, t), env, timeFn, getFuncs, time, base);
            t + 3 in env' && env'[t + 3] == base + (time % n) * PtrSize
  {
    var p := Injection(timeFn, getFuncs, n, t);
    var e1: map<TempId, int> := env[t := time];
    var e2: map<TempId, int> := e1[t + 1 := time % n];
    var e3: map<TempId, int> := e2[t + 2 := base];
    var e4: map<TempId, int> := e3[t + 1 := (time % n) * PtrSize];
    assert EvalStmt(p[0], env, timeFn, getFuncs, time, base) == e1;
    assert EvalStmt(p[1], e1, timeFn, getFuncs, time, base) == e2 by {
      assert Value(Ssa(t), e1) == time;
    }
    assert EvalStmt(p[2], e2, timeFn, getFuncs, time, base) == e3;
    assert EvalStmt(p[3], e3, timeFn, getFuncs, time, base) == e4 by {
      assert Value(Ssa(t + 1), e3) == time % n;
    }
    assert Value(Ssa(t + 2), e4) == base && Value(Ssa(t + 1), e4) == (time % n) * PtrSize;
  }

  /** The injected load reads the table at slot time % n_funcs, which is
      in range; with the table the corrected prologue fills (init(n_funcs),
      then add_fn in index order), the indirect call goes to junk function
      fs[time % n_funcs]. The prologue as built sizes the table from an
      unset argument; see InitAsWrittenLosesSize. */
  lemma InjectionCallsJunkFn(timeFn: FnId, getFuncs: FnId, t: TempId, time: nat, base: int, env: map<TempId, int>, fs: seq<FnId>)
    requires |fs| > 0 && timeFn != getFuncs
    ensures var p := Injection(timeFn, getFuncs, |fs|, t);
            var env' := RunFive(p, env, timeFn, getFuncs, time, base);
            p[5] == Assign(Single, Ssa(t + 4), [MemRef(Ssa(t + 3))]) &&
            t + 3 in env' && env'[t + 3] == base + (time % |fs|) * PtrSize &&
            0 <= time % |fs| < |fs| &&
            var table := seq(|fs|, i requires 0 <= i < |fs| => Some(fs[i]));
            AddFns(TableInit(|fs|), fs) == Some(table) && table[time % |fs|] == Some(fs[time % |fs|])
  {
    InjectionAddress(timeFn, getFuncs, |fs|, t, time, base, env);
    FilledTable(fs);
  }

  /** Slimer's static and global state; time(), __slimer_get_funcs and
      __slimer_add_fn are declarations with fixed ids, and rand() is an
      oracle: its n-th call returns rand(n). */
  class SlimerState {
    /** n_funcs, after the clamps. */
    const nFuncs: int
    /** max_calls: injections still allowed in the unit. */
    var maxCalls: int
    /** analyized_fns. */
    var analyzed: seq<FnId>
    /** fakes, and the names their functions were built with. */
    var fakes: seq<FnId>
    var fakeNames: seq<string>
    /** Whether insert_add_fn's static declaration has been built. */
    var addFnBuilt: bool
    var nextId: nat
    const timeFn: FnId
    const getFuncsFn: FnId
    const addFnDecl: FnId
    const rand: nat -> nat
    var draws: nat

    ghost predicate Valid()
      reads this`maxCalls, this`fakes, this`fakeNames, this`nextId
    {
      nFuncs >= 0 && maxCalls >= 0 && (nFuncs == 0 ==> maxCalls == 0) &&
      |fakes| == |fakeNames| == nFuncs &&
      (forall i :: 0 <= i < |fakeNames| ==> fakeNames[i] == FuncName(i)) &&
      (forall i :: 0 <= i < |fakes| ==> fakes[i] < nextId) &&
      (forall i, k :: 0 <= i < k < |fakes| ==> fakes[i] < fakes[k])
    }

    /** plugin_init's option loop and clamps, then the start-of-unit
        callback that builds the junk functions. */
    constructor (args: seq<PluginArg>, rand: nat -> nat, timeFn: FnId, getFuncsFn: FnId, addFnDecl: FnId, nextId: nat)
      ensures Valid()
      ensures (nFuncs, maxCalls) == Clamp(LastValue(args, "numfuncs", 8).GetOr(0), LastValue(args, "maxcalls", 8).GetOr(0))
      ensures forall i :: 0 <= i < |fakes| ==> fakes[i] == nextId + i
      ensures this.nextId == nextId + nFuncs && analyzed == [] && !addFnBuilt && draws == 0
      ensures this.rand == rand && this.timeFn == timeFn && this.getFuncsFn == getFuncsFn && this.addFnDecl == addFnDecl
    {
      var numfuncs, maxcalls := ParseOptions(args);
      var c := Clamp(numfuncs, maxcalls);
      nFuncs := c.0;
      maxCalls := c.1;
      analyzed := [];
      fakes := [];
      fakeNames := [];
      addFnBuilt := false;
      this.nextId := nextId;
      this.timeFn := timeFn;
      this.getFuncsFn := getFuncsFn;
      this.addFnDecl := addFnDecl;
      this.rand := rand;
      draws := 0;
      new;
      GenFakeFuncs();
    }

    method Rand() returns (r: nat)
      modifies this`draws
      ensures r == rand(old(draws)) && draws == old(draws) + 1
    {
      r := rand(draws);
      draws := draws + 1;
    }

    /** A new declaration or temporary. */
    method FreshId() returns (t: nat)
      modifies this`nextId
      ensures t == old(nextId) && nextId == old(nextId) + 1
    {
      t := nextId;
      nextId := nextId + 1;
    }

    /** build_junk_fn(id): a new empty function named __func<id>. */
    method BuildJunkFn(id: nat) returns (decl: FnId, name: string)
      modifies this`nextId
      ensures decl == old(nextId) && nextId == old(nextId) + 1 && name == FuncName(id)
    {
      name := FuncName(id);
      decl := FreshId();
    }

    /** gen_fake_funcs: fakes becomes exactly n_funcs new functions, the
        i-th named __func<i>. */
    method GenFakeFuncs()
      requires nFuncs >= 0
      modifies this`fakes, this`fakeNames, this`nextId
      ensures |fakes| == |fakeNames| == nFuncs && nextId == old(nextId) + nFuncs
      ensures forall i :: 0 <= i < nFuncs ==> fakes[i] == old(nextId) + i && fakeNames[i] == FuncName(i)
    {
      fakes := [];
      fakeNames := [];
      for i := 0 to nFuncs
        invariant |fakes| == |fakeNames| == i && nextId == old(nextId) + i
        invariant forall k :: 0 <= k < i ==> fakes[k] == old(nextId) + k && fakeNames[k] == FuncName(k)
      {
        var decl, name := BuildJunkFn(i);
        fakes := fakes + [decl];
        fakeNames := fakeNames + [name];
      }
    }

    /** has_been_processed: a scan of analyized_fns, then of fakes. */
    method HasBeenProcessed(x: Operand) returns (r: bool)
      ensures r <==> Processed(x, analyzed, fakes)
    {
      for i := 0 to |analyzed|
        invariant forall k :: 0 <= k < i ==> x != FnDecl(analyzed[k])
      {
        if x == FnDecl(analyzed[i]) {
          return true;
        }
      }
      for i := 0 to |fakes|
        invariant forall k :: 0 <= k < i ==> x != FnDecl(fakes[k])
      {
        if x == FnDecl(fakes[i]) {
          return true;
        }
      }
      return false;
    }

    /** insert_call: `decl()`, built without arguments, goes right before
        the statement at pos, and decl is recorded as analysed. */
    method InsertCall(b: Block, pos: nat, decl: FnId) returns (b': Block)
      requires pos <= |b|
      modifies this`analyzed
      ensures b' == b[..pos] + [CallTo(decl, [])] + b[pos..]
      ensures analyzed == old(analyzed) + [decl]
    {
      b' := b[..pos] + [CallTo(decl, [])] + b[pos..];
      analyzed := analyzed + [decl];
    }

    /** insert_add_fn: `__slimer_add_fn(&fakes[index], index)` right before
        the statement at pos; the first time, the declaration is built and
        recorded as analysed. */
    method InsertAddFn(b: Block, pos: nat, index: nat) returns (b': Block)
      requires pos <= |b| && index < |fakes|
      modifies this`analyzed, this`addFnBuilt
      ensures b' == b[..pos] + [AddFnCall(addFnDecl, fakes[index], index)] + b[pos..]
      ensures analyzed == old(analyzed) + (if old(addFnBuilt) then [] else [addFnDecl]) && addFnBuilt
    {
      if !addFnBuilt {
        addFnBuilt := true;
        analyzed := analyzed + [addFnDecl];
      }
      b' := b[..pos] + [AddFnCall(addFnDecl, fakes[index], index)] + b[pos..];
    }

    /** insert_slimer_init on main's first block: a new __slimer_init
        declaration, its call, then one add_fn per junk function, all
        before the first statement. The init call passes no argument, as
        built (see InitAsWrittenLosesSize). */
    method InsertSlimerInit(b0: Block) returns (b0': Block)
      requires Valid() && b0 != []
      modifies this`analyzed, this`addFnBuilt, this`nextId
      ensures Valid() && nextId == old(nextId) + 1
      ensures b0' == Prologue(old(nextId), addFnDecl, fakes, nFuncs) + b0
      ensures analyzed == old(analyzed) + [old(nextId)] + (if nFuncs > 0 && !old(addFnBuilt) then [addFnDecl] else []) + [old(nextId)]
      ensures addFnBuilt == (old(addFnBuilt) || nFuncs > 0)
    {
      var decl := FreshId();
      b0' := InsertCall(b0, 0, decl);
      ghost var a1 := analyzed;
      for i := 0 to nFuncs
        invariant b0' == [InitCallAsWritten(decl)] + AddFnCalls(addFnDecl, fakes, i) + b0
        invariant analyzed == a1 + (if i > 0 && !old(addFnBuilt) then [addFnDecl] else [])
        invariant addFnBuilt == (old(addFnBuilt) || i > 0) && nextId == old(nextId) + 1
      {
        b0' := InsertAddFn(b0', i + 1, i);
        assert AddFnCalls(addFnDecl, fakes, i + 1) == AddFnCalls(addFnDecl, fakes, i) + [AddFnCall(addFnDecl, fakes[i], i)];
      }
      analyzed := analyzed + [decl];
    }

    /** insert_call_to_junk_fn before the statement at i: five new
        temporaries and the seven statements, in order (each insertion
        keeps the cursor on the statement). */
    method InsertCallToJunkFn(b: Block, i: nat) returns (b': Block)
      requires i < |b|
      modifies this`nextId
      ensures nextId == old(nextId) + 5
      ensures b' == b[..i] + Injection(timeFn, getFuncsFn, nFuncs, old(nextId)) + b[i..]
    {
      var tv := FreshId();
      var rv := FreshId();
      var tmp := FreshId();
      var fn := FreshId();
      var theFn := FreshId();
      var seven := [ Call(Ssa(tv), FnAddr(timeFn), [IntCst(0)]),
                     Assign(TruncMod, Ssa(rv), [Ssa(tv), IntCst(nFuncs)]),
                     Call(Ssa(tmp), FnAddr(getFuncsFn), []),
                     Assign(Mult, Ssa(rv), [Ssa(rv), IntCst(PtrSize)]),
                     Assign(Plus, Ssa(fn), [Ssa(tmp), Ssa(rv)]),
                     Assign(Single, Ssa(theFn), [MemRef(Ssa(fn))]),
                     Call(Null, Ssa(theFn), []) ];
      b' := b[..i] + seven + b[i..];
    }

    /** One visit of slimer_exec's loop to the statement at i: nothing, or
        an injection before it when it is a candidate, budget remains and
        the coin is even. */
    method Offer(b: Block, i: nat) returns (b': Block, i': nat, ghost p: seq<Stmt>)
      requires Valid() && i < |b|
      modifies this`maxCalls, this`nextId, this`draws
      ensures Valid() && old(nextId) <= nextId
      ensures SlimePre(p, b[i], analyzed, fakes, timeFn, getFuncsFn, nFuncs)
      ensures p != [] <==> Candidate(b[i], analyzed, fakes) && old(maxCalls) > 0 && rand(old(draws)) % 2 == 0
      ensures draws == old(draws) + (if Candidate(b[i], analyzed, fakes) && old(maxCalls) > 0 then 1 else 0)
      ensures p == [] ==> b' == b && maxCalls == old(maxCalls) && nextId == old(nextId)
      ensures p != [] ==> b' == b[..i] + p + b[i..] && |p| == 7 && maxCalls == old(maxCalls) - 1
      ensures p != [] ==> p == Injection(timeFn, getFuncsFn, nFuncs, old(nextId)) && nextId == old(nextId) + 5
      ensures i' == i + |p|
    {
      b', i', p := b, i, [];
      var s := b[i];
      if s.Call? || s.Assign? {
        var skip := false;
        if s.Call? {
          var processed := HasBeenProcessed(s.callee);
          skip := !processed;
        }
        if !skip && maxCalls > 0 {
          var r := Rand();
          if r % 2 == 0 {
            p := Injection(timeFn, getFuncsFn, nFuncs, nextId);
            b' := InsertCallToJunkFn(b, i);
            i' := i + 7;
            maxCalls := maxCalls - 1;
          }
        }
      }
    }

    /** slimer_exec's statement loop over one block: candidates get an
        injection on an even coin while budget remains; the cursor then
        moves past the visited statement, so injections are not visited. */
    method SlimeBlock(b: Block) returns (b': Block, ghost pres: seq<seq<Stmt>>)
      requires Valid()
      modifies this`maxCalls, this`nextId, this`draws
      ensures Valid() && 0 <= maxCalls <= old(maxCalls) && old(nextId) <= nextId
      ensures |pres| == |b| && b' == Interleave(pres, b) && AllSlimed(pres, b, analyzed, fakes, timeFn, getFuncsFn, nFuncs)
      ensures Injected(pres) == old(maxCalls) - maxCalls
      ensures Injected(pres) > 0 ==> nFuncs > 0
    {
      b' := b;
      pres := [];
      ghost var j := 0;
      var i: nat := 0;
      while i < |b'|
        invariant Valid() && 0 <= maxCalls <= old(maxCalls) && old(nextId) <= nextId
        invariant SlimeWalk(b, b', i, pres, j, analyzed, fakes, timeFn, getFuncsFn, nFuncs, old(maxCalls) - maxCalls)
        decreases |b| - j
      {
        ghost var b0, i0, spent0 := b', i, old(maxCalls) - maxCalls;
        ghost var p;
        b', i, p := Offer(b', i);
        SlimeStep(b, b0, i0, pres, j, analyzed, fakes, timeFn, getFuncsFn, nFuncs, spent0, p, b');
        i := i + 1;
        pres := pres + [p];
        j := j + 1;
      }
      SlimeDone(b, b', i, pres, j, analyzed, fakes, timeFn, getFuncsFn, nFuncs, old(maxCalls) - maxCalls);
    }

    /** slimer_exec on function f: processed and external functions are
        left alone; main gets the prologue; every block is walked with the
        one budget; f is then recorded as analysed, so running again on it
        changes nothing. */
    method Exec(f: Function) returns (f': Function, ghost start: seq<Block>, ghost pres: seq<seq<seq<Stmt>>>)
      requires Valid()
      requires !Processed(FnDecl(f.id), analyzed, fakes) && !f.isExternal && f.name == "main" ==>
                 f.blocks != [] && f.blocks[0] != []
      modifies this`maxCalls, this`nextId, this`draws, this`analyzed, this`addFnBuilt
      ensures Valid() && (!f.isExternal ==> Processed(FnDecl(f.id), analyzed, fakes))
      ensures Processed(FnDecl(f.id), old(analyzed), fakes) || f.isExternal ==>
                f' == f && analyzed == old(analyzed) && maxCalls == old(maxCalls) &&
                nextId == old(nextId) && draws == old(draws) && addFnBuilt == old(addFnBuilt)
      ensures !Processed(FnDecl(f.id), old(analyzed), fakes) && !f.isExternal ==>
                f' == f.(blocks := f'.blocks) &&
                start == (if f.name == "main" then f.blocks[0 := Prologue(old(nextId), addFnDecl, fakes, nFuncs) + f.blocks[0]]
                          else f.blocks) &&
                |analyzed| > 0 && analyzed[|analyzed| - 1] == f.id && old(analyzed) <= analyzed &&
                BlocksSlimed(start, f'.blocks, pres, analyzed[..|analyzed| - 1], fakes, timeFn, getFuncsFn, nFuncs) &&
                0 <= maxCalls && SumInjected(pres) == old(maxCalls) - maxCalls
    {
      start, pres := f.blocks, [];
      var processed := HasBeenProcessed(FnDecl(f.id));
      if processed {
        return f, start, pres;
      }
      if f.isExternal {
        return f, start, pres;
      }
      f', start, pres := SlimeFunction(f);
    }

    /** The part of slimer_exec past its two guards. */
    method SlimeFunction(f: Function) returns (f': Function, ghost start: seq<Block>, ghost pres: seq<seq<seq<Stmt>>>)
      requires Valid()
      requires f.name == "main" ==> f.blocks != [] && f.blocks[0] != []
      modifies this`maxCalls, this`nextId, this`draws, this`analyzed, this`addFnBuilt
      ensures Valid() && f' == f.(blocks := f'.blocks)
      ensures start == (if f.name == "main" then f.blocks[0 := Prologue(old(nextId), addFnDecl, fakes, nFuncs) + f.blocks[0]]
                        else f.blocks)
      ensures |analyzed| > 0 && analyzed[|analyzed| - 1] == f.id && old(analyzed) <= analyzed
      ensures BlocksSlimed(start, f'.blocks, pres, analyzed[..|analyzed| - 1], fakes, timeFn, getFuncsFn, nFuncs)
      ensures 0 <= maxCalls && SumInjected(pres) == old(maxCalls) - maxCalls
    {
      var blocks := f.blocks;
      if f.name == "main" {
        var b0 := InsertSlimerInit(blocks[0]);
        blocks := blocks[0 := b0];
      }
      start := blocks;
      ghost var seen := analyzed;
      var out;
      out, pres := SlimeBody(blocks);
      analyzed := analyzed + [f.id];
      assert analyzed[..|analyzed| - 1] == seen;
      f' := f.(blocks := out);
    }

    /** The block loop of slimer_exec: every block walked, one budget. */
    method SlimeBody(blocks: seq<Block>) returns (out: seq<Block>, ghost pres: seq<seq<seq<Stmt>>>)
      requires Valid()
      modifies this`maxCalls, this`nextId, this`draws
      ensures Valid() && 0 <= maxCalls <= old(maxCalls) && old(nextId) <= nextId
      ensures BlocksSlimed(blocks, out, pres, analyzed, fakes, timeFn, getFuncsFn, nFuncs)
      ensures SumInjected(pres) == old(maxCalls) - maxCalls
    {
      out, pres := [], [];
      for k := 0 to |blocks|
        invariant Valid() && 0 <= maxCalls <= old(maxCalls) && old(nextId) <= nextId
        invariant BlocksSlimed(blocks[..k], out, pres, analyzed, fakes, timeFn, getFuncsFn, nFuncs)
        invariant SumInjected(pres) == old(maxCalls) - maxCalls
      {
        var b';
        ghost var p;
        b', p := SlimeBlock(blocks[k]);
        SumInjectedSnoc(pres, p);
        BlocksSlimedStep(blocks, k, out, pres, analyzed, fakes, timeFn, getFuncsFn, nFuncs, b', p);
        out := out + [b'];
        pres := pres + [p];
      }
      assert blocks[..|blocks|] == blocks;
    }
  }
}

/** The jpanic pass: before a random selection of statements, up to a
    budget of `maxjunk` in the whole compilation, it inserts a junk
    statement (a copy or arithmetic into a sink, or a call to a synthesised
    empty function). Junk functions never receive calls to junk functions. */
module JPanic {
  import opened IR
  import opened Options
  import opened Names

  /** junk_type_e, in declaration order. */
  datatype JunkType = JunkAssign | JunkAdd | JunkSub | JunkMul | JunkNewFn | JunkOldFn

  /** N_JUNK_TYPES */
  const NJunkTypes: nat := 6

  /** The enum value with number r. */
  function JunkTypeOf(r: nat): (t: JunkType)
    requires r < NJunkTypes
    ensures r == 0 <==> t == JunkAssign
    ensures r == 1 <==> t == JunkAdd
    ensures r == 2 <==> t == JunkSub
    ensures r == 3 <==> t == JunkMul
    ensures r == 4 <==> t == JunkNewFn
    ensures r == 5 <==> t == JunkOldFn
  {
    [JunkAssign, JunkAdd, JunkSub, JunkMul, JunkNewFn, JunkOldFn][r]
  }

  /** The tree code build_junk_math picks: ADD and SUB map to their codes,
      anything else to MULT. */
  function MathCode(op: JunkType): Code {
    if op == JunkAdd then Plus else if op == JunkSub then Minus else Mult
  }

  /** `DECL_RESULT(cur) = sink`, inserted after junk in a junk function. */
  function ResultAssign(cur: FnId, sink: TempId): Stmt {
    Assign(Single, ResultDecl(cur), [Ssa(sink)])
  }

  /** The statements create_junk_stmt can produce that are not calls: a copy
      of a fresh temporary into the sink, arithmetic on two temporaries
      into the sink, or a nop. */
  predicate IsJunkData(s: Stmt, sink: TempId) {
    s == Nop ||
    (s.Assign? && s.lhs == Ssa(sink) &&
     ((s.code == Single && |s.rhs| == 1) || (s.code in {Plus, Minus, Mult} && |s.rhs| == 2)) &&
     forall m :: 0 <= m < |s.rhs| ==> s.rhs[m].Ssa? && s.rhs[m].tid != sink)
  }

  /** Any junk statement: data junk, or a call without arguments to a junk
      function. */
  predicate IsJunk(s: Stmt, sink: TempId, fns: seq<FnId>) {
    IsJunkData(s, sink) ||
    (s.Call? && s.lhs == Null && s.args == [] && CalleeId(s).Some? && CalleeId(s).value in fns)
  }

  /** What may be inserted before one original statement. Outside a junk
      function: nothing or one junk statement. Inside one: any number of
      (data junk, result assignment) pairs, since the cursor comes back to
      the statement after every insertion. */
  ghost predicate JunkPre(p: seq<Stmt>, inJunkFn: bool, cur: FnId, sink: TempId, fns: seq<FnId>) {
    if !inJunkFn then |p| <= 1 && forall m :: 0 <= m < |p| ==> IsJunk(p[m], sink, fns)
    else |p| % 2 == 0 && forall m :: 0 <= m < |p| / 2 ==> IsJunkData(p[2 * m], sink) && p[2 * m + 1] == ResultAssign(cur, sink)
  }

  ghost predicate AllJunkPre(pres: seq<seq<Stmt>>, inJunkFn: bool, cur: FnId, sink: TempId, fns: seq<FnId>) {
    forall j :: 0 <= j < |pres| ==> JunkPre(pres[j], inJunkFn, cur, sink, fns)
  }

  lemma JunkPreGrows(p: seq<Stmt>, inJunkFn: bool, cur: FnId, sink: TempId, fns: seq<FnId>, fns': seq<FnId>)
    requires JunkPre(p, inJunkFn, cur, sink, fns) && fns <= fns'
    ensures JunkPre(p, inJunkFn, cur, sink, fns')
  {
    if !inJunkFn && |p| == 1 && !IsJunkData(p[0], sink) {
      assert CalleeId(p[0]).value in fns';
    }
  }

  lemma AllJunkPreGrows(pres: seq<seq<Stmt>>, inJunkFn: bool, cur: FnId, sink: TempId, fns: seq<FnId>, fns': seq<FnId>)
    requires AllJunkPre(pres, inJunkFn, cur, sink, fns) && fns <= fns'
    ensures AllJunkPre(pres, inJunkFn, cur, sink, fns')
  {
    forall j | 0 <= j < |pres| ensures JunkPre(pres[j], inJunkFn, cur, sink, fns') {
      JunkPreGrows(pres[j], inJunkFn, cur, sink, fns, fns');
    }
  }

  /** Nothing inserted into a junk function calls anything. */
  lemma JunkFnGetsNoCalls(p: seq<Stmt>, cur: FnId, sink: TempId, fns: seq<FnId>)
    requires JunkPre(p, true, cur, sink, fns)
    ensures forall m :: 0 <= m < |p| ==> !p[m].Call?
  {
    forall m | 0 <= m < |p| ensures !p[m].Call? {
      if m % 2 == 0 {
        assert IsJunkData(p[2 * (m / 2)], sink);
      } else {
        assert p[2 * (m / 2) + 1] == ResultAssign(cur, sink);
      }
    }
  }

  /** The last matching maxjunk option, negative values clamped to 0. */
  function MaxJunkOption(args: seq<PluginArg>): (r: int)
    ensures r >= 0
    ensures LastValue(args, "maxjunk", 7).Some? && LastValue(args, "maxjunk", 7).value >= 0 ==>
              r == LastValue(args, "maxjunk", 7).value
    ensures LastValue(args, "maxjunk", 7).Some? && LastValue(args, "maxjunk", 7).value < 0 ==> r == 0
    ensures LastValue(args, "maxjunk", 7).None? ==> r == 0
  {
    var v := LastValue(args, "maxjunk", 7).GetOr(0);
    if v < 0 then 0 else v
  }

  /** The option is recognised on its first seven characters, "maxjunk" exactly. */
  lemma MaxJunkKey(key: string)
    ensures StrnEq("maxjunk", key, 7) <==> |key| >= 7 && key[..7] == "maxjunk"
  {
    StrnEqPrefix("maxjunk", key, 7);
  }

  /** The names create_junk_fn hands out, __func1, __func2, ..., never
      repeat. */
  lemma JunkNamesDistinct(names: seq<string>)
    requires forall k :: 0 <= k < |names| ==> names[k] == FuncName(k + 1)
    ensures forall j, k :: 0 <= j < k < |names| ==> names[j] != names[k]
  {
    forall j, k | 0 <= j < k < |names| ensures names[j] != names[k] {
      FuncNameInjective(j + 1, k + 1);
    }
  }

  /** The pass's static and global state, and the random number generator
      as an oracle: the n-th call of rand() returns rand(n). */
  class JPanicState {
    /** max_junk: the junk still allowed in the rest of the compilation. */
    var maxJunk: int
    /** junk_fns, and the names the functions were built with. */
    var junkFns: seq<FnId>
    var junkNames: seq<string>
    /** create_junk_fn's static id: the number of the last junk function. */
    var lastId: nat
    /** The next unused id for a declaration or a temporary. */
    var nextId: nat
    /** The jpanic sink global, built once by init_jpanic_global. */
    const sink: TempId
    const rand: nat -> nat
    var draws: nat

    ghost predicate Valid()
      reads this`maxJunk, this`junkFns, this`junkNames, this`lastId, this`nextId
    {
      maxJunk >= 0 && lastId == |junkFns| == |junkNames| && sink < nextId &&
      (forall k :: 0 <= k < |junkNames| ==> junkNames[k] == FuncName(k + 1)) &&
      (forall k :: 0 <= k < |junkFns| ==> junkFns[k] < nextId) &&
      (forall j, k :: 0 <= j < k < |junkFns| ==> junkFns[j] < junkFns[k])
    }

    /** plugin_init's option loop and clamp, then the first run's
        init_jpanic_global and empty junk_fns. */
    constructor (args: seq<PluginArg>, rand: nat -> nat, nextId: nat)
      ensures Valid()
      ensures maxJunk == MaxJunkOption(args) && junkFns == [] && draws == 0
      ensures sink == nextId && this.nextId == nextId + 1 && this.rand == rand
    {
      var v := ScanOption(args, "maxjunk", 7);
      if v < 0 {
        v := 0;
      }
      maxJunk := v;
      junkFns := [];
      junkNames := [];
      lastId := 0;
      sink := nextId;
      this.nextId := nextId + 1;
      this.rand := rand;
      draws := 0;
    }

    /** rand(): the next value of the oracle. */
    method Rand() returns (r: nat)
      modifies this`draws
      ensures r == rand(old(draws)) && draws == old(draws) + 1
    {
      r := rand(draws);
      draws := draws + 1;
    }

    /** create_tmp_var and make_ssa_name, or build_fn_decl: a new id. */
    method FreshId() returns (t: nat)
      requires Valid()
      modifies this`nextId
      ensures Valid() && t == old(nextId) && nextId == old(nextId) + 1
    {
      t := nextId;
      nextId := nextId + 1;
    }

    /** build_junk_assign: `sink = _junk` for a fresh temporary. */
    method BuildJunkAssign() returns (s: Stmt)
      requires Valid()
      modifies this`nextId
      ensures Valid() && nextId == old(nextId) + 1
      ensures s == Assign(Single, Ssa(sink), [Ssa(old(nextId))]) && IsJunkData(s, sink)
    {
      var t := FreshId();
      s := Assign(Single, Ssa(sink), [Ssa(t)]);
    }

    /** build_junk_math: `sink = _junk OP _junk` for two fresh temporaries. */
    method BuildJunkMath(op: JunkType) returns (s: Stmt)
      requires Valid()
      modifies this`nextId
      ensures Valid() && nextId == old(nextId) + 2
      ensures s == Assign(MathCode(op), Ssa(sink), [Ssa(old(nextId)), Ssa(old(nextId) + 1)]) && IsJunkData(s, sink)
    {
      var t1 := FreshId();
      var t2 := FreshId();
      s := Assign(MathCode(op), Ssa(sink), [Ssa(t1), Ssa(t2)]);
    }

    /** create_junk_fn: a new empty function named __func<id> with the id
        pre-incremented, appended to junk_fns. */
    method CreateJunkFn() returns (f: FnId)
      requires Valid()
      modifies this`junkFns, this`junkNames, this`lastId, this`nextId
      ensures Valid()
      ensures f == old(nextId) && f !in old(junkFns) && nextId == old(nextId) + 1
      ensures junkFns == old(junkFns) + [f] && junkNames == old(junkNames) + [FuncName(lastId)]
      ensures lastId == old(lastId) + 1
    {
      var id := lastId + 1;
      var name := FuncName(id);
      f := FreshId();
      lastId := id;
      junkFns := junkFns + [f];
      junkNames := junkNames + [name];
    }

    /** find_junk_fn: a new junk function when there is none yet, else the
        one at index rand() % len. */
    method FindJunkFn() returns (f: FnId)
      requires Valid()
      modifies this`junkFns, this`junkNames, this`lastId, this`nextId, this`draws
      ensures Valid() && f in junkFns
      ensures old(junkFns) == [] ==> junkFns == [f] && f == old(nextId) && nextId == old(nextId) + 1 && draws == old(draws)
      ensures old(junkFns) != [] ==>
                junkFns == old(junkFns) && nextId == old(nextId) && draws == old(draws) + 1 &&
                f == old(junkFns)[rand(old(draws)) % |old(junkFns)|]
      ensures old(junkFns) <= junkFns && old(nextId) <= nextId
      ensures forall x :: x in junkFns && x !in old(junkFns) ==> old(nextId) <= x
    {
      var len := |junkFns|;
      if len == 0 {
        f := CreateJunkFn();
        return;
      }
      var r := Rand();
      f := junkFns[r % len];
    }

    /** is_junk_fn: a scan of junk_fns for `decl`. */
    method IsJunkFn(decl: FnId) returns (r: bool)
      ensures r <==> decl in junkFns
    {
      for i := 0 to |junkFns|
        invariant decl !in junkFns[..i]
      {
        if junkFns[i] == decl {
          return true;
        }
      }
      assert junkFns[..|junkFns|] == junkFns;
      return false;
    }

    /** create_junk_stmt in function `cur`: the kind is rand() % 6; calls
        are replaced by a nop inside a junk function. */
    method CreateJunkStmt(cur: FnId) returns (s: Stmt)
      requires Valid()
      modifies this`junkFns, this`junkNames, this`lastId, this`nextId, this`draws
      ensures Valid()
      ensures old(junkFns) <= junkFns && old(nextId) <= nextId && maxJunk == old(maxJunk)
      ensures forall x :: x in junkFns && x !in old(junkFns) ==> old(nextId) <= x
      ensures IsJunk(s, sink, junkFns)
      ensures cur in old(junkFns) ==> s == Nop || (IsJunkData(s, sink) && s.Assign?)
      ensures cur in old(junkFns) ==> junkFns == old(junkFns)
      ensures var t := JunkTypeOf(rand(old(draws)) % NJunkTypes);
              (t == JunkAssign ==> s.Assign? && s.code == Single) &&
              (t in {JunkAdd, JunkSub, JunkMul} ==> s.Assign? && s.code == MathCode(t)) &&
              (t in {JunkNewFn, JunkOldFn} ==> (cur in old(junkFns) <==> s == Nop)) &&
              (t == JunkNewFn && cur !in old(junkFns) ==> junkFns == old(junkFns) + [old(nextId)] && s == CallTo(old(nextId), [])) &&
              (t == JunkOldFn && cur !in old(junkFns) ==>
                 s == CallTo(if old(junkFns) == [] then old(nextId)
                             else old(junkFns)[rand(old(draws) + 1) % |old(junkFns)|], [])) &&
              draws == old(draws) + (if t == JunkOldFn && cur !in old(junkFns) && old(junkFns) != [] then 2 else 1)
    ensures var t := JunkTypeOf(rand(old(draws)) % NJunkTypes);
            var created := cur !in old(junkFns) && (t == JunkNewFn || (t == JunkOldFn && old(junkFns) == []));
            junkFns == old(junkFns) + (if created then [old(nextId)] else []) &&
            nextId == old(nextId) + (if t == JunkAssign || created then 1 else if t in {JunkAdd, JunkSub, JunkMul} then 2 else 0)
    {
      var r := Rand();
      var t := JunkTypeOf(r % NJunkTypes);
      if t in {JunkNewFn, JunkOldFn} {
        s := CreateCallJunk(cur, t);
      } else {
        s := CreateDataJunk(t);
      }
    }

    /** The copy and arithmetic cases of create_junk_stmt's switch. */
    method CreateDataJunk(t: JunkType) returns (s: Stmt)
      requires Valid() && t in {JunkAssign, JunkAdd, JunkSub, JunkMul}
      modifies this`nextId
      ensures Valid() && IsJunkData(s, sink) && s.Assign?
      ensures t == JunkAssign ==> s.code == Single && nextId == old(nextId) + 1
      ensures t != JunkAssign ==> s.code == MathCode(t) && nextId == old(nextId) + 2
    {
      if t == JunkAssign {
        s := BuildJunkAssign();
      } else {
        s := BuildJunkMath(t);
      }
    }

    /** The JUNK_NEW_FN and JUNK_OLD_FN cases of create_junk_stmt's switch:
        a call to a new or found junk function, or a nop inside a junk
        function. */
    method CreateCallJunk(cur: FnId, t: JunkType) returns (s: Stmt)
      requires Valid() && t in {JunkNewFn, JunkOldFn}
      modifies this`junkFns, this`junkNames, this`lastId, this`nextId, this`draws
      ensures Valid() && IsJunk(s, sink, junkFns)
      ensures old(junkFns) <= junkFns && old(nextId) <= nextId
      ensures forall x :: x in junkFns && x !in old(junkFns) ==> old(nextId) <= x
      ensures cur in old(junkFns) <==> s == Nop
      ensures cur in old(junkFns) ==> junkFns == old(junkFns) && nextId == old(nextId) && draws == old(draws)
      ensures cur !in old(junkFns) && (t == JunkNewFn || old(junkFns) == []) ==>
                junkFns == old(junkFns) + [old(nextId)] && nextId == old(nextId) + 1 &&
                draws == old(draws) && s == CallTo(old(nextId), [])
      ensures cur !in old(junkFns) && t == JunkOldFn && old(junkFns) != [] ==>
                junkFns == old(junkFns) && nextId == old(nextId) && draws == old(draws) + 1 &&
                s == CallTo(old(junkFns)[rand(old(draws)) % |old(junkFns)|], [])
    {
      var isJ := IsJunkFn(cur);
      if isJ {
        s := Nop;
      } else if t == JunkNewFn {
        var node := CreateJunkFn();
        s := CallTo(node, []);
      } else {
        var node := FindJunkFn();
        s := CallTo(node, []);
      }
    }

    /** One insertion at cursor i, which sits on an original statement
        after `front + pre`: the junk statement, then, in a junk function,
        `DECL_RESULT = sink` placed after it with the cursor left on it. */
    method InsertJunk(b: Block, i: nat, cur: FnId, ghost front: seq<Stmt>, ghost pre: seq<Stmt>, ghost rest: seq<Stmt>)
      returns (b': Block, i': nat, isJ: bool, ghost added: seq<Stmt>)
      requires Valid() && cur < nextId && maxJunk > 0
      requires b == front + pre + rest && i == |front| + |pre|
      modifies this`maxJunk, this`junkFns, this`junkNames, this`lastId, this`nextId, this`draws
      ensures Valid() && cur < nextId && maxJunk == old(maxJunk) - 1
      ensures old(junkFns) <= junkFns && (cur in junkFns) == (cur in old(junkFns)) && isJ == (cur in junkFns)
      ensures b' == front + (pre + added) + rest && i' == i + 1
      ensures !isJ ==> |added| == 1 && IsJunk(added[0], sink, junkFns)
      ensures isJ ==> |added| == 2 && IsJunkData(added[0], sink) && added[1] == ResultAssign(cur, sink)
      ensures junkFns == old(junkFns) ||
              (!isJ && junkFns == old(junkFns) + [old(nextId)] && added[0] == CallTo(old(nextId), []))
    {
      var s := CreateJunkStmt(cur);
      SpliceBefore(front, pre, rest, s);
      b' := b[..i] + [s] + b[i..];
      i' := i + 1;
      isJ := IsJunkFn(cur);
      added := [s];
      if isJ {
        SpliceBefore(front, pre + [s], rest, ResultAssign(cur, sink));
        b' := b'[..i'] + [ResultAssign(cur, sink)] + b'[i'..];
        added := [s, ResultAssign(cur, sink)];
      }
      maxJunk := maxJunk - 1;
    }

    /** One visit of jpanic_exec's loop to the statement at cursor i: while
        budget remains a coin is drawn, and on an odd draw the junk (and,
        in a junk function, the result assignment) goes before it. */
    method Visit(b: Block, i: nat, cur: FnId, ghost front: seq<Stmt>, ghost pre: seq<Stmt>, ghost rest: seq<Stmt>)
      returns (b': Block, i': nat, inserted: bool, isJ: bool, ghost added: seq<Stmt>)
      requires Valid() && cur < nextId
      requires b == front + pre + rest && i == |front| + |pre|
      modifies this`maxJunk, this`junkFns, this`junkNames, this`lastId, this`nextId, this`draws
      ensures Valid() && cur < nextId && old(junkFns) <= junkFns && (cur in junkFns) == (cur in old(junkFns))
      ensures inserted <==> old(maxJunk) > 0 && rand(old(draws)) % 2 != 0
      ensures !inserted ==> b' == b && i' == i && maxJunk == old(maxJunk) && junkFns == old(junkFns) &&
                            draws == old(draws) + (if old(maxJunk) > 0 then 1 else 0)
      ensures inserted ==> maxJunk == old(maxJunk) - 1 && isJ == (cur in junkFns) &&
                           b' == front + (pre + added) + rest && i' == i + 1
      ensures inserted && !isJ ==> |added| == 1 && IsJunk(added[0], sink, junkFns)
      ensures inserted && isJ ==> |added| == 2 && IsJunkData(added[0], sink) && added[1] == ResultAssign(cur, sink)
      ensures inserted ==> junkFns == old(junkFns) ||
                           (!isJ && junkFns == old(junkFns) + [old(nextId)] && added[0] == CallTo(old(nextId), []))
    {
      b', i', inserted, isJ, added := b, i, false, false, [];
      if maxJunk > 0 {
        var r := Rand();
        if r % 2 != 0 && maxJunk != 0 {
          b', i', isJ, added := InsertJunk(b, i, cur, front, pre, rest);
          inserted := true;
        }
      }
    }

    /** The statement loop of jpanic_exec over one block of function `cur`.
        While budget remains, each offered statement gets a coin; on success
        junk goes before it, and in a junk function a result assignment too,
        after which the cursor is back on the same statement. */
    method JunkifyBlock(b: Block, cur: FnId) returns (b': Block, ghost pres: seq<seq<Stmt>>)
      requires Valid() && cur < nextId
      modifies this`maxJunk, this`junkFns, this`junkNames, this`lastId, this`nextId, this`draws
      ensures Valid() && cur < nextId
      ensures 0 <= maxJunk <= old(maxJunk) && old(junkFns) <= junkFns
      ensures (cur in junkFns) == (cur in old(junkFns))
      ensures |pres| == |b| && b' == Interleave(pres, b)
      ensures AllJunkPre(pres, cur in junkFns, cur, sink, junkFns)
      ensures TotalLen(pres) == (if cur in junkFns then 2 else 1) * (old(maxJunk) - maxJunk)
      ensures old(maxJunk) == 0 ==> b' == b
    {
      ghost var inJ := cur in junkFns;
      ghost var unit := if inJ then 2 else 1;
      b' := b;
      pres := [];
      ghost var curPre: seq<Stmt> := [];
      ghost var j := 0;
      var i: nat := 0;
      while i < |b'|
        invariant Valid() && cur < nextId && old(junkFns) <= junkFns && (cur in junkFns) == inJ
        invariant 0 <= maxJunk <= old(maxJunk)
        invariant Walk(b, b', i, pres, curPre, j, inJ, cur, sink, junkFns, unit, old(maxJunk) - maxJunk)
        invariant !inJ ==> curPre == []
        decreases |b| - j + maxJunk
      {
        ghost var fns0, b0, i0, spent0 := junkFns, b', i, old(maxJunk) - maxJunk;
        var inserted, isJ;
        ghost var added;
        b', i, inserted, isJ, added := Visit(b', i, cur, Interleave(pres, b[..j]), curPre, b[j..]);
        i := i + 1;
        if !inserted {
          WalkPass(b, b', i0, pres, curPre, j, inJ, cur, sink, junkFns, unit, spent0);
          pres, curPre, j := pres + [curPre], [], j + 1;
        } else if !isJ {
          WalkInsertPass(b, b0, i0, pres, j, cur, sink, fns0, junkFns, spent0, added, b');
          pres, j := pres + [added], j + 1;
        } else {
          WalkInsertStay(b, b0, i0, pres, curPre, j, cur, sink, fns0, junkFns, spent0, added, b');
          curPre := curPre + added;
        }
      }
      WalkDone(b, b', i, pres, curPre, j, inJ, cur, sink, junkFns, unit, old(maxJunk) - maxJunk);
      if old(maxJunk) == 0 {
        TotalLenZero(pres);
        InterleaveNothing(pres, b);
      }
    }

    /** jpanic_exec on function `f`: the statement walk over every basic
        block, with one budget shared by all of them. */
    method Exec(f: Function) returns (f': Function, ghost pres: seq<seq<seq<Stmt>>>)
      requires Valid() && f.id < nextId
      modifies this`maxJunk, this`junkFns, this`junkNames, this`lastId, this`nextId, this`draws
      ensures Valid() && f.id < nextId
      ensures 0 <= maxJunk <= old(maxJunk) && old(junkFns) <= junkFns
      ensures (f.id in junkFns) == (f.id in old(junkFns))
      ensures f' == f.(blocks := f'.blocks)
      ensures BlocksJunked(f.blocks, f'.blocks, pres, f.id in junkFns, f.id, sink, junkFns)
      ensures SumTotal(pres) == (if f.id in junkFns then 2 else 1) * (old(maxJunk) - maxJunk)
    {
      ghost var inJ := f.id in junkFns;
      ghost var unit := if inJ then 2 else 1;
      var blocks: seq<Block> := [];
      pres := [];
      for k := 0 to |f.blocks|
        invariant Valid() && f.id < nextId && old(junkFns) <= junkFns && (f.id in junkFns) == inJ
        invariant 0 <= maxJunk <= old(maxJunk)
        invariant BlocksJunked(f.blocks[..k], blocks, pres, inJ, f.id, sink, junkFns)
        invariant SumTotal(pres) == unit * (old(maxJunk) - maxJunk)
      {
        ghost var fns0, m0 := junkFns, maxJunk;
        var b';
        ghost var p;
        b', p := JunkifyBlock(f.blocks[k], f.id);
        BlocksJunkedStep(f.blocks, k, blocks, pres, inJ, f.id, sink, fns0, junkFns, b', p);
        SumTotalSnoc(pres, p);
        blocks := blocks + [b'];
        pres := pres + [p];
      }
      assert f.blocks[..|f.blocks|] == f.blocks;
      f' := f.(blocks := blocks);
    }
  }

  /** Every block of a function body walked: block k became
      `Interleave(pres[k], blocks[k])` with well-formed junk. */
  ghost predicate BlocksJunked(blocks: seq<Block>, blocks': seq<Block>, pres: seq<seq<seq<Stmt>>>,
                               inJ: bool, cur: FnId, sink: TempId, fns: seq<FnId>)
  {
    |blocks'| == |blocks| == |pres| &&
    forall k :: 0 <= k < |blocks| ==>
      |pres[k]| == |blocks[k]| && blocks'[k] == Interleave(pres[k], blocks[k]) && AllJunkPre(pres[k], inJ, cur, sink, fns)
  }

  lemma BlocksJunkedStep(blocks: seq<Block>, k: nat, blocks': seq<Block>, pres: seq<seq<seq<Stmt>>>,
                         inJ: bool, cur: FnId, sink: TempId, fns0: seq<FnId>, fns: seq<FnId>,
                         b': Block, p: seq<seq<Stmt>>)
    requires k < |blocks| && BlocksJunked(blocks[..k], blocks', pres, inJ, cur, sink, fns0) && fns0 <= fns
    requires |p| == |blocks[k]| && b' == Interleave(p, blocks[k]) && AllJunkPre(p, inJ, cur, sink, fns)
    ensures BlocksJunked(blocks[..k + 1], blocks' + [b'], pres + [p], inJ, cur, sink, fns)
  {
    forall m | 0 <= m < k ensures AllJunkPre(pres[m], inJ, cur, sink, fns) {
      AllJunkPreGrows(pres[m], inJ, cur, sink, fns0, fns);
    }
  }

  /** The number of statements inserted into a whole function body. */
  function SumTotal(pres: seq<seq<seq<Stmt>>>): nat {
    if pres == [] then 0 else SumTotal(pres[..|pres| - 1]) + TotalLen(pres[|pres| - 1])
  }

  lemma SumTotalSnoc(pres: seq<seq<seq<Stmt>>>, p: seq<seq<Stmt>>)
    ensures SumTotal(pres + [p]) == SumTotal(pres) + TotalLen(p)
  {
    assert (pres + [p])[..|pres|] == pres;
  }

  /** Statements no insertion list contains survive a walk only as the
      originals: every call in a walked junk function was already there. */
  lemma {:induction false} CallsAreOriginal(pres: seq<seq<Stmt>>, orig: seq<Stmt>, cur: FnId, sink: TempId, fns: seq<FnId>)
    requires |pres| == |orig| && AllJunkPre(pres, true, cur, sink, fns)
    ensures forall x :: x in Interleave(pres, orig) && x.Call? ==> x in orig
  {
    if orig != [] {
      var n := |orig| - 1;
      CallsAreOriginal(pres[..n], orig[..n], cur, sink, fns);
      JunkFnGetsNoCalls(pres[n], cur, sink, fns);
      forall x | x in Interleave(pres, orig) && x.Call? ensures x in orig {
        if x in Interleave(pres[..n], orig[..n]) {
          assert x in orig[..n];
        } else if x !in pres[n] {
          assert x == orig[n];
        }
      }
    }
  }

  /** A junk function gains no calls: the only junk that could be a call
      is replaced by a nop there. */
  lemma JunkFnGainsNoCalls(f: Function, blocks': seq<Block>, pres: seq<seq<seq<Stmt>>>, sink: TempId, fns: seq<FnId>)
    requires BlocksJunked(f.blocks, blocks', pres, true, f.id, sink, fns)
    ensures forall k, x :: 0 <= k < |blocks'| && x in blocks'[k] && x.Call? ==> x in f.blocks[k]
  {
    forall k | 0 <= k < |blocks'| ensures forall x :: x in blocks'[k] && x.Call? ==> x in f.blocks[k] {
      CallsAreOriginal(pres[k], f.blocks[k], f.id, sink, fns);
    }
  }

  /** The budget is never exceeded: each block grows by its insertions, and
      each unit of budget pays for at most two statements. */
  lemma {:induction false} BlockGrowth(blocks: seq<Block>, blocks': seq<Block>, pres: seq<seq<seq<Stmt>>>,
                                       inJ: bool, cur: FnId, sink: TempId, fns: seq<FnId>)
    requires BlocksJunked(blocks, blocks', pres, inJ, cur, sink, fns)
    ensures StmtCount(blocks') == StmtCount(blocks) + SumTotal(pres)
  {
    if blocks != [] {
      var n := |blocks| - 1;
      BlockGrowth(blocks[..n], blocks'[..n], pres[..n], inJ, cur, sink, fns);
      InterleaveLength(pres[n], blocks[n]);
    }
  }

  /** The state of the statement walk over original block `b`: the first j
      originals have been passed with `pres` inserted before them, `curPre`
      has been inserted before original j, on which the cursor i sits, and
      `spent` units of budget account for everything inserted. */
  ghost predicate Walk(b: Block, b': Block, i: nat, pres: seq<seq<Stmt>>, curPre: seq<Stmt>, j: nat,
                       inJ: bool, cur: FnId, sink: TempId, fns: seq<FnId>, unit: nat, spent: int)
  {
    j <= |b| && |pres| == j && (j == |b| ==> curPre == []) &&
    b' == Interleave(pres, b[..j]) + curPre + b[j..] &&
    i == |Interleave(pres, b[..j])| + |curPre| &&
    AllJunkPre(pres, inJ, cur, sink, fns) && JunkPre(curPre, inJ, cur, sink, fns) &&
    TotalLen(pres) + |curPre| == unit * spent
  }

  /** No coin, or a failed one: the cursor moves to the next original. */
  lemma WalkPass(b: Block, b': Block, i: nat, pres: seq<seq<Stmt>>, curPre: seq<Stmt>, j: nat,
                 inJ: bool, cur: FnId, sink: TempId, fns: seq<FnId>, unit: nat, spent: int)
    requires Walk(b, b', i, pres, curPre, j, inJ, cur, sink, fns, unit, spent) && i < |b'|
    requires !inJ ==> curPre == []
    ensures Walk(b, b', i + 1, pres + [curPre], [], j + 1, inJ, cur, sink, fns, unit, spent)
  {
    PassOriginal(pres, curPre, b, j, inJ, cur, sink, fns);
  }

  /** Junk outside a junk function: one statement goes before the original,
      and the cursor moves past both. */
  lemma WalkInsertPass(b: Block, b0: Block, i: nat, pres: seq<seq<Stmt>>, j: nat,
                       cur: FnId, sink: TempId, fns0: seq<FnId>, fns: seq<FnId>, spent: int,
                       added: seq<Stmt>, b': Block)
    requires Walk(b, b0, i, pres, [], j, false, cur, sink, fns0, 1, spent) && i < |b0| && fns0 <= fns
    requires |added| == 1 && IsJunk(added[0], sink, fns)
    requires b' == Interleave(pres, b[..j]) + ([] + added) + b[j..]
    ensures Walk(b, b', i + 2, pres + [added], [], j + 1, false, cur, sink, fns, 1, spent + 1)
  {
    JunkStep(pres, [], added, b, j, false, cur, sink, fns0, fns);
    assert [] + added == added;
    PassOriginal(pres, added, b, j, false, cur, sink, fns);
  }

  /** Junk inside a junk function: the pair goes before the original, and
      the cursor comes back to it. */
  lemma WalkInsertStay(b: Block, b0: Block, i: nat, pres: seq<seq<Stmt>>, curPre: seq<Stmt>, j: nat,
                       cur: FnId, sink: TempId, fns0: seq<FnId>, fns: seq<FnId>, spent: int,
                       added: seq<Stmt>, b': Block)
    requires Walk(b, b0, i, pres, curPre, j, true, cur, sink, fns0, 2, spent) && i < |b0| && fns0 <= fns
    requires |added| == 2 && IsJunkData(added[0], sink) && added[1] == ResultAssign(cur, sink)
    requires b' == Interleave(pres, b[..j]) + (curPre + added) + b[j..]
    ensures Walk(b, b', i + 2, pres, curPre + added, j, true, cur, sink, fns, 2, spent + 1)
  {
    JunkStep(pres, curPre, added, b, j, true, cur, sink, fns0, fns);
  }

  /** The walk ends with every original passed. */
  lemma WalkDone(b: Block, b': Block, i: nat, pres: seq<seq<Stmt>>, curPre: seq<Stmt>, j: nat,
                 inJ: bool, cur: FnId, sink: TempId, fns: seq<FnId>, unit: nat, spent: int)
    requires Walk(b, b', i, pres, curPre, j, inJ, cur, sink, fns, unit, spent) && i >= |b'|
    ensures |pres| == |b| && b' == Interleave(pres, b)
    ensures AllJunkPre(pres, inJ, cur, sink, fns) && TotalLen(pres) == unit * spent
  {
    assert b[..j] == b;
  }

  /** Adding junk before original j keeps the insertions well-formed. */
  lemma JunkStep(pres: seq<seq<Stmt>>, curPre: seq<Stmt>, added: seq<Stmt>, b: Block, j: nat,
                 inJ: bool, cur: FnId, sink: TempId, fns0: seq<FnId>, fns: seq<FnId>)
    requires AllJunkPre(pres, inJ, cur, sink, fns0) && JunkPre(curPre, inJ, cur, sink, fns0) && fns0 <= fns
    requires !inJ ==> curPre == [] && |added| == 1 && IsJunk(added[0], sink, fns)
    requires inJ ==> |added| == 2 && IsJunkData(added[0], sink) && added[1] == ResultAssign(cur, sink)
    ensures AllJunkPre(pres, inJ, cur, sink, fns) && JunkPre(curPre + added, inJ, cur, sink, fns)
  {
    AllJunkPreGrows(pres, inJ, cur, sink, fns0, fns);
    JunkPreGrows(curPre, inJ, cur, sink, fns0, fns);
    if inJ {
      var p := curPre + added;
      forall m | 0 <= m < |p| / 2 ensures IsJunkData(p[2 * m], sink) && p[2 * m + 1] == ResultAssign(cur, sink) {
        if m < |curPre| / 2 {
          assert p[2 * m] == curPre[2 * m] && p[2 * m + 1] == curPre[2 * m + 1];
        }
      }
    }
  }

  /** gsi_insert_before at the cursor, which sits on the statement after
      `front + pre`. */
  lemma SpliceBefore(front: seq<Stmt>, pre: seq<Stmt>, rest: seq<Stmt>, s: Stmt)
    ensures var b := front + pre + rest; var i := |front| + |pre|;
            b[..i] + [s] + b[i..] == front + (pre + [s]) + rest
  {
    var b := front + pre + rest;
    var i := |front| + |pre|;
    assert b[..i] == front + pre;
    assert b[i..] == rest;
  }

  /** The cursor passing original j closes its insertion list. */
  lemma PassOriginal(pres: seq<seq<Stmt>>, curPre: seq<Stmt>, b: Block, j: nat,
                     inJ: bool, cur: FnId, sink: TempId, fns: seq<FnId>)
    requires |pres| == j < |b|
    requires AllJunkPre(pres, inJ, cur, sink, fns) && JunkPre(curPre, inJ, cur, sink, fns)
    ensures AllJunkPre(pres + [curPre], inJ, cur, sink, fns)
    ensures Interleave(pres + [curPre], b[..j + 1]) == Interleave(pres, b[..j]) + curPre + [b[j]]
    ensures TotalLen(pres + [curPre]) == TotalLen(pres) + |curPre|
    ensures Interleave(pres, b[..j]) + curPre + b[j..] == Interleave(pres + [curPre], b[..j + 1]) + b[j + 1..]
  {
    assert b[..j + 1] == b[..j] + [b[j]];
    InterleaveSnoc(pres, b[..j], curPre, b[j]);
    assert b[j..] == [b[j]] + b[j + 1..];
  }
}

/** The munger pass: every operand that denotes a readonly string constant is
    replaced by a global that a call to __decode fills in at run time, and the
    constant's bytes are XOR-encoded in place, once per distinct constant. */
module Munger {
  import opened IR
  import opened MungerBuiltins

  // ---------------------------------------------------------------------
  // Recognising string constants (get_str_cst)

  /** TREE_OPERAND(t, 0) for the expression nodes modelled; None when the
      node has no operands. */
  function Operand0(t: Operand): Option<Operand> {
    match t
    case AddrOf(b, _) => Some(b)
    case ArrayRef(b, _) => Some(b)
    case MemRef(p) => Some(p)
    case _ => None
  }

  /** TREE_OPERAND_LENGTH(t) > 0 */
  predicate HasOperands(t: Operand) {
    t.AddrOf? || t.ArrayRef? || t.MemRef?
  }

  /** The readonly flag TYPE_READONLY reads on the node. The C front end
      marks every string constant readonly. */
  predicate IsReadonly(t: Operand) {
    match t
    case StringCst(_) => true
    case VarDecl(_, ro, _) => ro
    case AddrOf(_, ro) => ro
    case ArrayRef(_, ro) => ro
    case _ => false
  }

  /** One step into a node: a variable's initializer or an expression's operand 0. */
  function Child(t: Operand): Option<Operand> {
    if t.VarDecl? then t.init else Operand0(t)
  }

  /** `target` is `t` itself or is reached from `t` in at most k child steps. */
  predicate Within(t: Operand, target: Operand, k: nat) {
    t == target || (k > 0 && Child(t).Some? && Within(Child(t).value, target, k - 1))
  }

  /** The second half of get_str_cst: reject a node that is neither readonly
      nor an ARRAY_REF, look through one operand, and accept a STRING_CST. */
  function StrCstAt(str: Option<Operand>): Option<StrId> {
    if str.None? then None
    else
      var s := str.value;
      if !IsReadonly(s) && !s.ArrayRef? then None
      else
        var t := if HasOperands(s) && !s.StringCst? then Operand0(s).value else s;
        if t.StringCst? then Some(t.sid) else None
  }

  /** get_str_cst: the string constant an operand denotes, if any. A
      variable is looked at through its initializer (none, or an integer
      constant such as a single char, means no string), an address-of
      through its operand. */
  function GetStrCst(node: Operand): (r: Option<StrId>)
    ensures node.VarDecl? && (node.init.None? || node.init.value.IntCst?) ==> r.None?
    ensures node.StringCst? ==> r == Some(node.sid)
  {
    if node.VarDecl? then
      if node.init.None? then None
      else if node.init.value.IntCst? then None
      else StrCstAt(Operand0(node.init.value))
    else if node.AddrOf? then StrCstAt(Operand0(node))
    else StrCstAt(Some(node))
  }

  /** A string is only found through a readonly node or an ARRAY_REF that
      lies at most two steps inside the operand, with the string at most
      one step below that node; so it is at most three steps inside. */
  lemma GetStrCstPassesGate(node: Operand)
    requires GetStrCst(node).Some?
    ensures exists e :: Within(node, e, 2) && (IsReadonly(e) || e.ArrayRef?)
                        && Within(e, StringCst(GetStrCst(node).value), 1)
    ensures Within(node, StringCst(GetStrCst(node).value), 3)
  {
    var target := StringCst(GetStrCst(node).value);
    var e := if node.VarDecl? then Operand0(node.init.value).value
             else if node.AddrOf? then node.base
             else node;
    assert Within(e, target, 1);
    if node.VarDecl? {
      var v := node.init.value;
      assert Within(v, target, 2);
    } else if node.AddrOf? {
      assert Within(node, target, 2);
    }
    assert Within(node, e, 2);
  }

  /** The operand shapes GCC produces for string uses, and for the ones the
      pass leaves alone. */
  lemma GetStrCstShapes(sid: StrId, v: VarId, c: int, t: TempId, f: FnId, ro: bool, ro2: bool)
    ensures GetStrCst(StringCst(sid)) == Some(sid)                                   // "lit"
    ensures GetStrCst(AddrOf(StringCst(sid), ro)) == Some(sid)                       // &"lit"
    ensures GetStrCst(AddrOf(ArrayRef(StringCst(sid), ro2), ro)) == Some(sid)        // &"lit"[0]
    ensures GetStrCst(VarDecl(v, ro, Some(AddrOf(StringCst(sid), ro2)))) == Some(sid) // p = "lit"
    ensures GetStrCst(VarDecl(v, ro, Some(IntCst(c)))) == None                       // c = 'X'
    ensures GetStrCst(VarDecl(v, ro, None)) == None                                  // no initializer
    ensures GetStrCst(AddrOf(AddrOf(StringCst(sid), false), ro)) == None             // &(unflagged &"lit")
    ensures GetStrCst(Ssa(t)) == None && GetStrCst(IntCst(c)) == None && GetStrCst(Null) == None
    ensures GetStrCst(FnAddr(f)) == None
  {
  }

  // ---------------------------------------------------------------------
  // The readonlyz registry

  /** One readonlyz entry: a string constant and the global holding its
      decoded form. */
  datatype EncDec = EncDec(strcst: StrId, decNode: VarId)

  ghost predicate Registered(reg: seq<EncDec>, sid: StrId) {
    exists k :: 0 <= k < |reg| && reg[k].strcst == sid
  }

  ghost predicate UniqueKeys(reg: seq<EncDec>) {
    forall j, k :: 0 <= j < k < |reg| ==> reg[j].strcst != reg[k].strcst
  }

  /** The registry lookups of encode, add_unique and insert_decode_bn: the
      global of the first entry for `sid`. */
  function FindDec(reg: seq<EncDec>, sid: StrId): (r: Option<VarId>)
    ensures r.Some? <==> Registered(reg, sid)
    ensures r.Some? ==> EncDec(sid, r.value) in reg
  {
    if reg == [] then None
    else if reg[0].strcst == sid then Some(reg[0].decNode)
    else
      assert forall k :: 1 <= k < |reg| ==> reg[k] == reg[1..][k - 1];
      FindDec(reg[1..], sid)
  }

  /** Appending entries does not change what a registered string maps to. */
  lemma {:induction false} FindDecStable(reg: seq<EncDec>, more: seq<EncDec>, sid: StrId)
    requires Registered(reg, sid)
    ensures FindDec(reg + more, sid) == FindDec(reg, sid)
  {
    if reg[0].strcst != sid {
      var k :| 0 <= k < |reg| && reg[k].strcst == sid;
      assert reg[1..][k - 1].strcst == sid;
      assert (reg + more)[1..] == reg[1..] + more;
      FindDecStable(reg[1..], more, sid);
    }
  }

  /** A string added at the end of a registry that did not hold it maps to
      the new global. */
  lemma {:induction false} FindDecAppended(reg: seq<EncDec>, e: EncDec)
    requires !Registered(reg, e.strcst)
    ensures FindDec(reg + [e], e.strcst) == Some(e.decNode)
  {
    if reg != [] {
      assert (reg + [e])[1..] == reg[1..] + [e];
      assert !Registered(reg[1..], e.strcst) by {
        forall k | 0 <= k < |reg[1..]| ensures reg[1..][k].strcst != e.strcst {
          assert reg[1..][k] == reg[k + 1];
        }
      }
      FindDecAppended(reg[1..], e);
    }
  }

  lemma RegisteredGrows(reg: seq<EncDec>, reg': seq<EncDec>, sid: StrId)
    requires reg <= reg' && Registered(reg, sid)
    ensures Registered(reg', sid)
  {
    var k :| 0 <= k < |reg| && reg[k].strcst == sid;
    assert reg'[k] == reg[k];
  }

  // ---------------------------------------------------------------------
  // What the pass produces

  /** A MUNGER_GLOBAL: a static pointer variable without initializer. */
  function Global(g: VarId): Operand {
    VarDecl(g, false, None)
  }

  /** `MUNGER_ARG = G`, the first statement inserted for a string operand. */
  function CopyGlobal(temp: TempId, g: VarId): Stmt {
    Assign(Single, Ssa(temp), [Global(g)])
  }

  /** `G = __decode(MUNGER_ARG, orig, len)`, the second one. */
  function DecodeCall(decodeFn: FnId, g: VarId, temp: TempId, orig: Operand, len: nat): Stmt {
    Call(Global(g), FnAddr(decodeFn), [Ssa(temp), orig, IntCst(len)])
  }

  /** The operand indexes of the string operands among `ops`, in order. */
  function StrIndices(ops: seq<Operand>): (r: seq<nat>)
    ensures forall k :: 0 <= k < |r| ==> r[k] < |ops| && GetStrCst(ops[r[k]]).Some?
    ensures forall k, m :: 0 <= k < m < |r| ==> r[k] < r[m]
  {
    if ops == [] then []
    else StrIndices(ops[..|ops| - 1]) + (if GetStrCst(ops[|ops| - 1]).Some? then [|ops| - 1] else [])
  }

  lemma StrIndicesSnoc(ops: seq<Operand>, i: nat)
    requires i < |ops|
    ensures StrIndices(ops[..i + 1]) == StrIndices(ops[..i]) + (if GetStrCst(ops[i]).Some? then [i] else [])
  {
    assert ops[..i + 1][..i] == ops[..i];
  }


  /** Every string constant the statement's operands denote is one of `strs`
      (the constants whose bytes the unit holds). */
  ghost predicate Covered(s: Stmt, strs: set<StrId>) {
    forall i :: 0 <= i < |Ops(s)| && GetStrCst(Ops(s)[i]).Some? ==> GetStrCst(Ops(s)[i]).value in strs
  }

  /** Every string operand of every statement is covered. */
  ghost predicate PoolCovers(blocks: seq<Block>, strs: set<StrId>) {
    forall k, j :: 0 <= k < |blocks| && 0 <= j < |blocks[k]| ==> Covered(blocks[k][j], strs)
  }

  /** Operand `op` after the pass, given the final registry. */
  function Rewritten(op: Operand, reg: seq<EncDec>): Operand {
    match GetStrCst(op)
    case None => op
    case Some(sid) => Global(FindDec(reg, sid).GetOr(0))
  }

  /** `s'` is a statement of the same kind and code as `s` with as many operands. */
  ghost predicate ShapeKept(s: Stmt, s': Stmt) {
    s.Assign? == s'.Assign? && s.Call? == s'.Call? && (s.Assign? ==> s'.code == s.code) &&
    (!s.Assign? && !s.Call? ==> s' == s) && |Ops(s')| == |Ops(s)|
  }

  /** The first i operands of `s` have been rewritten in `s'`, each string
      one to its registered global, and the rest are still the originals. */
  ghost predicate RewrittenUpTo(s: Stmt, s': Stmt, i: nat, reg: seq<EncDec>) {
    i <= |Ops(s)| && ShapeKept(s, s') &&
    (forall m :: 0 <= m < i && GetStrCst(Ops(s)[m]).Some? ==> Registered(reg, GetStrCst(Ops(s)[m]).value)) &&
    (forall m :: 0 <= m < i ==> Ops(s')[m] == Rewritten(Ops(s)[m], reg)) &&
    (forall m :: i <= m < |Ops(s)| ==> Ops(s')[m] == Ops(s)[m])
  }

  /** Statements 2k and 2k+1 of `ins` are `MUNGER_ARG = G` and
      `G = __decode(MUNGER_ARG, orig, len)` for the string operand `orig`,
      with G its registered global and len its TREE_STRING_LENGTH. */
  ghost predicate DecodePairAt(ins: seq<Stmt>, k: nat, orig: Operand, reg: seq<EncDec>,
                               pool: map<StrId, seq<bv8>>, decodeFn: FnId)
  {
    2 * k + 1 < |ins| &&
    GetStrCst(orig).Some? && GetStrCst(orig).value in pool && Registered(reg, GetStrCst(orig).value) &&
    var g := FindDec(reg, GetStrCst(orig).value).value;
    ins[2 * k].Assign? && ins[2 * k].lhs.Ssa? &&
    ins[2 * k] == CopyGlobal(ins[2 * k].lhs.tid, g) &&
    ins[2 * k + 1] == DecodeCall(decodeFn, g, ins[2 * k].lhs.tid, orig, |pool[GetStrCst(orig).value]|)
  }

  /** `ins` is exactly the decode pairs of the string operands among the
      first i of `ops`, in operand order. */
  ghost predicate PairsUpTo(ops: seq<Operand>, i: nat, ins: seq<Stmt>, reg: seq<EncDec>,
                            pool: map<StrId, seq<bv8>>, decodeFn: FnId)
  {
    i <= |ops| && |ins| == 2 * |StrIndices(ops[..i])| &&
    forall k :: 0 <= k < |StrIndices(ops[..i])| ==> DecodePairAt(ins, k, ops[StrIndices(ops[..i])[k]], reg, pool, decodeFn)
  }

  /** `s` became `s'` with `ins` inserted immediately before it: each string
      operand, in operand order, got its decode pair and was replaced by its
      registered global; every other operand is unchanged. */
  ghost predicate Munged(s: Stmt, ins: seq<Stmt>, s': Stmt, reg: seq<EncDec>,
                         pool: map<StrId, seq<bv8>>, decodeFn: FnId)
  {
    RewrittenUpTo(s, s', |Ops(s)|, reg) && PairsUpTo(Ops(s), |Ops(s)|, ins, reg, pool, decodeFn)
  }

  /** Munged for every original statement of a block. */
  ghost predicate AllMunged(orig: seq<Stmt>, pre: seq<seq<Stmt>>, news: seq<Stmt>, reg: seq<EncDec>,
                            pool: map<StrId, seq<bv8>>, decodeFn: FnId)
  {
    |pre| == |orig| && |news| == |orig| &&
    forall j :: 0 <= j < |orig| ==> Munged(orig[j], pre[j], news[j], reg, pool, decodeFn)
  }

  /** The pool after every string registered since `reg0` was XOR-encoded
      exactly once and every other string left alone. */
  ghost predicate EncodedOnce(pool0: map<StrId, seq<bv8>>, pool1: map<StrId, seq<bv8>>,
                              reg0: seq<EncDec>, reg1: seq<EncDec>)
  {
    pool1.Keys == pool0.Keys &&
    forall sid :: sid in pool0 ==>
      pool1[sid] == if Registered(reg1, sid) && !Registered(reg0, sid) then Xor(pool0[sid]) else pool0[sid]
  }

  /** Every string registered since `reg0` is one of the first i operands. */
  ghost predicate NewFrom(reg0: seq<EncDec>, reg: seq<EncDec>, ops: seq<Operand>, i: nat) {
    forall x: StrId :: Registered(reg, x) && !Registered(reg0, x) ==>
      exists m :: 0 <= m < i && m < |ops| && GetStrCst(ops[m]) == Some(x)
  }

  /** Some operand of `s` denotes the string constant x. */
  ghost predicate StmtUses(s: Stmt, x: StrId) {
    exists k :: 0 <= k < |Ops(s)| && GetStrCst(Ops(s)[k]) == Some(x)
  }

  /** Every string registered since `reg0` is used by one of `stmts`. */
  ghost predicate NewFromStmts(reg0: seq<EncDec>, reg: seq<EncDec>, stmts: seq<Stmt>) {
    forall x: StrId :: Registered(reg, x) && !Registered(reg0, x) ==>
      exists m :: 0 <= m < |stmts| && StmtUses(stmts[m], x)
  }

  /** Every string registered since `reg0` is used by a statement of one of
      `blocks`. */
  ghost predicate NewFromBlocks(reg0: seq<EncDec>, reg: seq<EncDec>, blocks: seq<Block>) {
    forall x: StrId :: Registered(reg, x) && !Registered(reg0, x) ==>
      exists k :: 0 <= k < |blocks| && NewFromIn(blocks[k], x)
  }

  ghost predicate NewFromIn(b: Block, x: StrId) {
    exists m :: 0 <= m < |b| && StmtUses(b[m], x)
  }

  /** The statements so far, then statement j with its operands' NewFrom. */
  lemma NewFromStmtsStep(reg00: seq<EncDec>, reg0: seq<EncDec>, reg: seq<EncDec>, orig: seq<Stmt>, j: nat)
    requires j < |orig| && NewFromStmts(reg00, reg0, orig[..j])
    requires NewFrom(reg0, reg, Ops(orig[j]), |Ops(orig[j])|)
    ensures NewFromStmts(reg00, reg, orig[..j + 1])
  {
    var next := orig[..j + 1];
    forall x: StrId | Registered(reg, x) && !Registered(reg00, x)
      ensures exists m :: 0 <= m < |next| && StmtUses(next[m], x)
    {
      if Registered(reg0, x) {
        var m :| 0 <= m < j && StmtUses(orig[..j][m], x);
        assert next[m] == orig[..j][m];
      } else {
        var k :| 0 <= k < |Ops(orig[j])| && GetStrCst(Ops(orig[j])[k]) == Some(x);
        assert next[j] == orig[j];
      }
    }
  }

  /** The blocks so far, then block k with its statements' NewFromStmts. */
  lemma NewFromBlocksStep(reg00: seq<EncDec>, reg0: seq<EncDec>, reg: seq<EncDec>, blocks: seq<Block>, k: nat)
    requires k < |blocks| && NewFromBlocks(reg00, reg0, blocks[..k])
    requires NewFromStmts(reg0, reg, blocks[k])
    ensures NewFromBlocks(reg00, reg, blocks[..k + 1])
  {
    var next := blocks[..k + 1];
    forall x: StrId | Registered(reg, x) && !Registered(reg00, x)
      ensures exists n :: 0 <= n < |next| && NewFromIn(next[n], x)
    {
      if Registered(reg0, x) {
        var n :| 0 <= n < k && NewFromIn(blocks[..k][n], x);
        assert next[n] == blocks[..k][n];
      } else {
        assert NewFromIn(blocks[k], x);
        assert next[k] == blocks[k];
      }
    }
  }

  /** A registry without repeated keys that only grew, but registers no new
      string, did not grow at all. */
  lemma RegistryFrame(reg0: seq<EncDec>, reg: seq<EncDec>)
    requires reg0 <= reg && UniqueKeys(reg)
    requires forall x :: Registered(reg, x) ==> Registered(reg0, x)
    ensures reg == reg0
  {
    if |reg| > |reg0| {
      var x := reg[|reg0|].strcst;
      assert Registered(reg, x);
      assert false;
    }
  }

  /** munger_exec registers and encodes nothing for a block whose
      statements denote no string constant. */
  lemma NoStringsNoChange(orig: seq<Stmt>, reg0: seq<EncDec>, reg: seq<EncDec>,
                          pool0: map<StrId, seq<bv8>>, pool: map<StrId, seq<bv8>>)
    requires NewFromStmts(reg0, reg, orig) && reg0 <= reg && UniqueKeys(reg) && EncodedOnce(pool0, pool, reg0, reg)
    requires forall m, x :: 0 <= m < |orig| ==> !StmtUses(orig[m], x)
    ensures reg == reg0 && pool == pool0
  {
    RegistryFrame(reg0, reg);
  }

  /** The temporary assigned by each inserted pair, in insertion order. */
  ghost function PairTemps(ins: seq<Stmt>): seq<nat>
    decreases |ins|
  {
    if |ins| < 2 then []
    else
      var c := ins[|ins| - 2];
      PairTemps(ins[..|ins| - 2]) + [if c.Assign? && c.lhs.Ssa? then c.lhs.tid else 0]
  }

  /** The temporaries of the inserted pairs are ids in [lo, hi), each
      pair's larger than those of the pairs before it. */
  ghost predicate TempsIn(ins: seq<Stmt>, lo: nat, hi: nat) {
    (forall k :: 0 <= k < |ins| / 2 ==> ins[2 * k].Assign? && ins[2 * k].lhs.Ssa? && lo <= ins[2 * k].lhs.tid < hi) &&
    (forall k, m :: 0 <= k < m < |PairTemps(ins)| ==> PairTemps(ins)[k] < PairTemps(ins)[m])
  }

  /** Pair k's temporary is the k-th entry of PairTemps. */
  lemma {:induction false} PairTempsAt(ins: seq<Stmt>)
    requires |ins| % 2 == 0
    ensures |PairTemps(ins)| == |ins| / 2
    ensures forall k :: 0 <= k < |ins| / 2 && ins[2 * k].Assign? && ins[2 * k].lhs.Ssa? ==>
              PairTemps(ins)[k] == ins[2 * k].lhs.tid
    decreases |ins|
  {
    if |ins| >= 2 {
      var front := ins[..|ins| - 2];
      PairTempsAt(front);
      forall k | 0 <= k < |front| / 2 ensures ins[2 * k] == front[2 * k] { }
    }
  }

  /** Every pair has its own temporary: of any two, the later one is larger. */
  lemma TempsDistinct(ins: seq<Stmt>, lo: nat, hi: nat)
    requires TempsIn(ins, lo, hi) && |ins| % 2 == 0
    ensures forall k, m :: 0 <= k < m < |ins| / 2 ==>
              ins[2 * k].Assign? && ins[2 * k].lhs.Ssa? && ins[2 * m].Assign? && ins[2 * m].lhs.Ssa? &&
              ins[2 * k].lhs.tid < ins[2 * m].lhs.tid
  {
    PairTempsAt(ins);
  }

  /** What encode followed by add_unique do to the pool and the registry
      for the constant `sid`, registered under `g`. */
  ghost predicate StepEffect(reg: seq<EncDec>, pool: map<StrId, seq<bv8>>, sid: StrId, g: VarId,
                             reg': seq<EncDec>, pool': map<StrId, seq<bv8>>)
  {
    sid in pool &&
    pool' == (if Registered(reg, sid) then pool else pool[sid := Xor(pool[sid])]) &&
    (Registered(reg, sid) ==> reg' == reg) &&
    (!Registered(reg, sid) ==> reg' == reg + [EncDec(sid, g)]) &&
    FindDec(reg', sid) == Some(g)
  }

  /** Two rounds of encoding compose into one: nothing is encoded twice. */
  lemma EncodedOnceTrans(p0: map<StrId, seq<bv8>>, p1: map<StrId, seq<bv8>>, p2: map<StrId, seq<bv8>>,
                         r0: seq<EncDec>, r1: seq<EncDec>, r2: seq<EncDec>)
    requires r0 <= r1 <= r2
    requires EncodedOnce(p0, p1, r0, r1) && EncodedOnce(p1, p2, r1, r2)
    ensures EncodedOnce(p0, p2, r0, r2)
  {
    forall sid | sid in p0
      ensures p2[sid] == if Registered(r2, sid) && !Registered(r0, sid) then Xor(p0[sid]) else p0[sid]
    {
      if Registered(r0, sid) {
        RegisteredGrows(r0, r1, sid);
      } else if Registered(r1, sid) {
        assert p1[sid] == Xor(p0[sid]);
        RegisteredGrows(r1, r2, sid);
      }
    }
  }

  /** What the pass leaves in the unit decodes back to the literal: a
      constant registered by the pass holds its bytes XOR 0xFF, and
      __decode's XOR 0xFF restores them. */
  lemma EncodedDecodesBack(pool0: map<StrId, seq<bv8>>, pool1: map<StrId, seq<bv8>>,
                           reg0: seq<EncDec>, reg1: seq<EncDec>, sid: StrId)
    requires EncodedOnce(pool0, pool1, reg0, reg1) && sid in pool0
    requires Registered(reg1, sid) && !Registered(reg0, sid)
    ensures sid in pool1 && Xor(pool1[sid]) == pool0[sid]
  {
  }

  /** After munging, no operand of the statement denotes a string constant:
      each one was either no string to begin with or is now a global
      without initializer. */
  lemma MungedHasNoStrings(s: Stmt, ins: seq<Stmt>, s': Stmt, reg: seq<EncDec>,
                           pool: map<StrId, seq<bv8>>, decodeFn: FnId)
    requires Munged(s, ins, s', reg, pool, decodeFn)
    ensures forall m :: 0 <= m < |Ops(s')| ==> GetStrCst(Ops(s')[m]).None?
  {
  }

  /** One encode/add_unique step encodes its constant exactly when it
      registers it. */
  lemma StepEncodedOnce(reg: seq<EncDec>, pool: map<StrId, seq<bv8>>, sid: StrId, g: VarId,
                        reg': seq<EncDec>, pool': map<StrId, seq<bv8>>)
    requires StepEffect(reg, pool, sid, g, reg', pool')
    ensures reg <= reg' && EncodedOnce(pool, pool', reg, reg')
  {
  }

  /** Entries registered before a step keep their globals. */
  lemma FindDecGrows(reg: seq<EncDec>, reg': seq<EncDec>, x: StrId)
    requires reg <= reg' && Registered(reg, x)
    ensures Registered(reg', x) && FindDec(reg', x) == FindDec(reg, x)
  {
    RegisteredGrows(reg, reg', x);
    assert reg' == reg + reg'[|reg|..];
    FindDecStable(reg, reg'[|reg|..], x);
  }

  lemma RewrittenStable(s: Stmt, s': Stmt, i: nat, reg: seq<EncDec>, reg': seq<EncDec>)
    requires RewrittenUpTo(s, s', i, reg) && reg <= reg'
    ensures RewrittenUpTo(s, s', i, reg')
  {
    forall m | 0 <= m < i && GetStrCst(Ops(s)[m]).Some?
      ensures Registered(reg', GetStrCst(Ops(s)[m]).value)
      ensures FindDec(reg', GetStrCst(Ops(s)[m]).value) == FindDec(reg, GetStrCst(Ops(s)[m]).value)
    {
      FindDecGrows(reg, reg', GetStrCst(Ops(s)[m]).value);
    }
  }

  lemma PairsStable(ops: seq<Operand>, i: nat, ins: seq<Stmt>, reg: seq<EncDec>, reg': seq<EncDec>,
                    pool: map<StrId, seq<bv8>>, pool': map<StrId, seq<bv8>>, decodeFn: FnId)
    requires PairsUpTo(ops, i, ins, reg, pool, decodeFn)
    requires reg <= reg' && EncodedOnce(pool, pool', reg, reg')
    ensures PairsUpTo(ops, i, ins, reg', pool', decodeFn)
  {
    var idx := StrIndices(ops[..i]);
    forall k | 0 <= k < |idx| ensures DecodePairAt(ins, k, ops[idx[k]], reg', pool', decodeFn) {
      assert DecodePairAt(ins, k, ops[idx[k]], reg, pool, decodeFn);
      var x := GetStrCst(ops[idx[k]]).value;
      FindDecGrows(reg, reg', x);
      assert |pool'[x]| == |pool[x]|;
    }
  }

  /** Munged stays true as the registry grows and further strings are encoded. */
  lemma AllMungedStable(orig: seq<Stmt>, pre: seq<seq<Stmt>>, news: seq<Stmt>, reg: seq<EncDec>, reg': seq<EncDec>,
                        pool: map<StrId, seq<bv8>>, pool': map<StrId, seq<bv8>>, decodeFn: FnId)
    requires AllMunged(orig, pre, news, reg, pool, decodeFn)
    requires reg <= reg' && EncodedOnce(pool, pool', reg, reg')
    ensures AllMunged(orig, pre, news, reg', pool', decodeFn)
  {
    forall j | 0 <= j < |orig| ensures Munged(orig[j], pre[j], news[j], reg', pool', decodeFn) {
      RewrittenStable(orig[j], news[j], |Ops(orig[j])|, reg, reg');
      PairsStable(Ops(orig[j]), |Ops(orig[j])|, pre[j], reg, reg', pool, pool', decodeFn);
    }
  }

  /** The block loop's step: the statements so far stay munged under the
      grown registry, and the new one joins them. */
  lemma AllMungedStep(orig: seq<Stmt>, j: nat, pre: seq<seq<Stmt>>, news: seq<Stmt>, ins: seq<Stmt>, s': Stmt,
                      reg0: seq<EncDec>, reg: seq<EncDec>, pool0: map<StrId, seq<bv8>>, pool: map<StrId, seq<bv8>>,
                      decodeFn: FnId)
    requires j < |orig| && AllMunged(orig[..j], pre, news, reg0, pool0, decodeFn)
    requires reg0 <= reg && EncodedOnce(pool0, pool, reg0, reg)
    requires Munged(orig[j], ins, s', reg, pool, decodeFn)
    ensures AllMunged(orig[..j + 1], pre + [ins], news + [s'], reg, pool, decodeFn)
  {
    AllMungedStable(orig[..j], pre, news, reg0, reg, pool0, pool, decodeFn);
    forall m | 0 <= m < j + 1
      ensures Munged(orig[..j + 1][m], (pre + [ins])[m], (news + [s'])[m], reg, pool, decodeFn)
    {
      if m < j {
        assert orig[..j + 1][m] == orig[..j][m] && (pre + [ins])[m] == pre[m] && (news + [s'])[m] == news[m];
      }
    }
  }

  /** The walk of munger_exec over original block `orig` after j
      statements: those are munged under the current registry and pool,
      with their pairs before them, and the cursor i sits on original j. */
  ghost predicate BlockWalk(orig: seq<Stmt>, j: nat, pre: seq<seq<Stmt>>, news: seq<Stmt>, b: seq<Stmt>, i: nat,
                            reg00: seq<EncDec>, pool00: map<StrId, seq<bv8>>,
                            reg: seq<EncDec>, pool: map<StrId, seq<bv8>>, decodeFn: FnId)
  {
    j <= |orig| && AllMunged(orig[..j], pre, news, reg, pool, decodeFn) &&
    b == Interleave(pre, news) + orig[j..] && i == |Interleave(pre, news)| && |b| == i + |orig| - j &&
    reg00 <= reg && EncodedOnce(pool00, pool, reg00, reg) && NewFromStmts(reg00, reg, orig[..j])
  }

  /** The walk is over once the cursor is past the block. */
  lemma BlockWalkDone(orig: seq<Stmt>, j: nat, pre: seq<seq<Stmt>>, news: seq<Stmt>, b: seq<Stmt>, i: nat,
                      reg00: seq<EncDec>, pool00: map<StrId, seq<bv8>>,
                      reg: seq<EncDec>, pool: map<StrId, seq<bv8>>, decodeFn: FnId)
    requires BlockWalk(orig, j, pre, news, b, i, reg00, pool00, reg, pool, decodeFn) && |b| <= i
    ensures AllMunged(orig, pre, news, reg, pool, decodeFn) && b == Interleave(pre, news)
    ensures reg00 <= reg && EncodedOnce(pool00, pool, reg00, reg) && NewFromStmts(reg00, reg, orig)
  {
    assert orig[j..] == [] && orig[..j] == orig;
  }

  /** One step of the block walk: original j, munged into `ins` and `s'`,
      is spliced in at the cursor, and everything munged so far stays
      munged under the grown registry. */
  lemma MungeBlockStep(orig: seq<Stmt>, j: nat, pre: seq<seq<Stmt>>, news: seq<Stmt>, b: seq<Stmt>, i: nat,
                       ins: seq<Stmt>, s': Stmt,
                       reg00: seq<EncDec>, pool00: map<StrId, seq<bv8>>, reg0: seq<EncDec>, pool0: map<StrId, seq<bv8>>,
                       reg: seq<EncDec>, pool: map<StrId, seq<bv8>>, decodeFn: FnId)
    requires j < |orig| && BlockWalk(orig, j, pre, news, b, i, reg00, pool00, reg0, pool0, decodeFn)
    requires reg0 <= reg && EncodedOnce(pool0, pool, reg0, reg)
    requires Munged(orig[j], ins, s', reg, pool, decodeFn) && NewFrom(reg0, reg, Ops(orig[j]), |Ops(orig[j])|)
    ensures BlockWalk(orig, j + 1, pre + [ins], news + [s'], b[..i] + ins + [s'] + b[i + 1..], i + |ins| + 1,
                      reg00, pool00, reg, pool, decodeFn)
  {
    InsertBeforeStep(b, i, pre, news, orig, j, ins, s');
    InterleaveLength(pre + [ins], news + [s']);
    InterleaveLength(pre, news);
    EncodedOnceTrans(pool00, pool0, pool, reg00, reg0, reg);
    AllMungedStep(orig, j, pre, news, ins, s', reg0, reg, pool0, pool, decodeFn);
    NewFromStmtsStep(reg00, reg0, reg, orig, j);
  }

  /** Every block of the function became `blocks'[k]`, the rewritten
      originals `news[k]` with `pres[k][j]` inserted before original j. */
  ghost predicate BlocksMunged(blocks: seq<Block>, blocks': seq<Block>, pres: seq<seq<seq<Stmt>>>, news: seq<seq<Stmt>>,
                               reg: seq<EncDec>, pool: map<StrId, seq<bv8>>, decodeFn: FnId)
  {
    |blocks'| == |blocks| && |pres| == |blocks| && |news| == |blocks| &&
    forall k :: 0 <= k < |blocks| ==>
      AllMunged(blocks[k], pres[k], news[k], reg, pool, decodeFn) && blocks'[k] == Interleave(pres[k], news[k])
  }

  lemma BlocksMungedStable(blocks: seq<Block>, blocks': seq<Block>, pres: seq<seq<seq<Stmt>>>, news: seq<seq<Stmt>>,
                           reg0: seq<EncDec>, reg: seq<EncDec>, pool0: map<StrId, seq<bv8>>, pool: map<StrId, seq<bv8>>,
                           decodeFn: FnId)
    requires BlocksMunged(blocks, blocks', pres, news, reg0, pool0, decodeFn)
    requires reg0 <= reg && EncodedOnce(pool0, pool, reg0, reg)
    ensures BlocksMunged(blocks, blocks', pres, news, reg, pool, decodeFn)
  {
    forall m | 0 <= m < |blocks| ensures AllMunged(blocks[m], pres[m], news[m], reg, pool, decodeFn) {
      AllMungedStable(blocks[m], pres[m], news[m], reg0, reg, pool0, pool, decodeFn);
    }
  }

  lemma BlocksMungedStep(blocks: seq<Block>, k: nat, blocks': seq<Block>, pres: seq<seq<seq<Stmt>>>, news: seq<seq<Stmt>>,
                         b: Block, bp: seq<seq<Stmt>>, bn: seq<Stmt>,
                         reg0: seq<EncDec>, reg: seq<EncDec>, pool0: map<StrId, seq<bv8>>, pool: map<StrId, seq<bv8>>,
                         decodeFn: FnId)
    requires k < |blocks| && BlocksMunged(blocks[..k], blocks', pres, news, reg0, pool0, decodeFn)
    requires reg0 <= reg && EncodedOnce(pool0, pool, reg0, reg)
    requires AllMunged(blocks[k], bp, bn, reg, pool, decodeFn) && b == Interleave(bp, bn)
    ensures BlocksMunged(blocks[..k + 1], blocks' + [b], pres + [bp], news + [bn], reg, pool, decodeFn)
  {
    BlocksMungedStable(blocks[..k], blocks', pres, news, reg0, reg, pool0, pool, decodeFn);
    var bs, bs' := blocks[..k + 1], blocks' + [b];
    forall m | 0 <= m < k + 1
      ensures AllMunged(bs[m], (pres + [bp])[m], (news + [bn])[m], reg, pool, decodeFn)
      ensures bs'[m] == Interleave((pres + [bp])[m], (news + [bn])[m])
    {
      if m < k {
        assert bs[m] == blocks[..k][m];
      }
    }
  }

  /** The operand loop's state after operand i, whatever it was. */
  ghost predicate OperandLoop(s: Stmt, i: nat, ins: seq<Stmt>, s': Stmt,
                              reg0: seq<EncDec>, reg: seq<EncDec>, pool0: map<StrId, seq<bv8>>, pool: map<StrId, seq<bv8>>,
                              lo: nat, hi: nat, decodeFn: FnId)
  {
    reg0 <= reg && lo <= hi && EncodedOnce(pool0, pool, reg0, reg) && NewFrom(reg0, reg, Ops(s), i) &&
    RewrittenUpTo(s, s', i, reg) && PairsUpTo(Ops(s), i, ins, reg, pool, decodeFn) && TempsIn(ins, lo, hi)
  }

  lemma RewrittenStep(s: Stmt, s': Stmt, i: nat, reg: seq<EncDec>, reg': seq<EncDec>, g: VarId)
    requires RewrittenUpTo(s, s', i, reg) && reg <= reg' && i < |Ops(s)|
    requires GetStrCst(Ops(s)[i]).Some? && FindDec(reg', GetStrCst(Ops(s)[i]).value) == Some(g)
    ensures !(s'.Call? && i == 2)
    ensures RewrittenUpTo(s, SetOp(s', i, Global(g)), i + 1, reg')
  {
    RewrittenStable(s, s', i, reg, reg');
  }

  lemma PairsStep(ops: seq<Operand>, i: nat, ins: seq<Stmt>, reg: seq<EncDec>, reg': seq<EncDec>,
                  pool: map<StrId, seq<bv8>>, pool': map<StrId, seq<bv8>>, decodeFn: FnId, g: VarId, temp: TempId)
    requires PairsUpTo(ops, i, ins, reg, pool, decodeFn) && i < |ops|
    requires reg <= reg' && EncodedOnce(pool, pool', reg, reg')
    requires GetStrCst(ops[i]).Some? && GetStrCst(ops[i]).value in pool'
    requires FindDec(reg', GetStrCst(ops[i]).value) == Some(g)
    ensures PairsUpTo(ops, i + 1, ins + [CopyGlobal(temp, g), DecodeCall(decodeFn, g, temp, ops[i], |pool'[GetStrCst(ops[i]).value]|)],
                      reg', pool', decodeFn)
  {
    var ins' := ins + [CopyGlobal(temp, g), DecodeCall(decodeFn, g, temp, ops[i], |pool'[GetStrCst(ops[i]).value]|)];
    PairsStable(ops, i, ins, reg, reg', pool, pool', decodeFn);
    StrIndicesSnoc(ops, i);
    var idx := StrIndices(ops[..i]);
    forall k | 0 <= k < |idx| ensures DecodePairAt(ins', k, ops[idx[k]], reg', pool', decodeFn) {
      assert DecodePairAt(ins, k, ops[idx[k]], reg', pool', decodeFn);
      assert ins'[2 * k] == ins[2 * k] && ins'[2 * k + 1] == ins[2 * k + 1];
    }
    assert DecodePairAt(ins', |idx|, ops[i], reg', pool', decodeFn);
  }

  lemma NewFromStep(reg0: seq<EncDec>, reg: seq<EncDec>, reg': seq<EncDec>, ops: seq<Operand>, i: nat, g: VarId)
    requires NewFrom(reg0, reg, ops, i) && i < |ops| && GetStrCst(ops[i]).Some?
    requires reg' == reg || reg' == reg + [EncDec(GetStrCst(ops[i]).value, g)]
    ensures NewFrom(reg0, reg', ops, i + 1)
  {
    forall x: StrId | Registered(reg', x) && !Registered(reg0, x)
      ensures exists m :: 0 <= m < i + 1 && m < |ops| && GetStrCst(ops[m]) == Some(x)
    {
      if x != GetStrCst(ops[i]).value {
        var k :| 0 <= k < |reg'| && reg'[k].strcst == x;
        assert k < |reg| && reg[k] == reg'[k];
      }
    }
  }

  lemma TempsStep(ins: seq<Stmt>, pairs: nat, lo: nat, hi: nat, temp: TempId, hi': nat, g: VarId, call: Stmt)
    requires TempsIn(ins, lo, hi) && |ins| == 2 * pairs && lo <= hi <= temp < hi'
    ensures TempsIn(ins + [CopyGlobal(temp, g), call], lo, hi')
  {
    var ins' := ins + [CopyGlobal(temp, g), call];
    forall k | 0 <= k < |ins'| / 2
      ensures ins'[2 * k].Assign? && ins'[2 * k].lhs.Ssa? && lo <= ins'[2 * k].lhs.tid < hi'
    {
      if k < pairs {
        assert ins'[2 * k] == ins[2 * k];
      }
    }
    PairTempsAt(ins);
    assert ins'[..|ins'| - 2] == ins;
    assert PairTemps(ins') == PairTemps(ins) + [temp];
  }

  /** Operand i is a string: after encode and add_unique (StepEffect), the
      copy into a fresh temporary and the decode call are appended and the
      operand is replaced by its global. */
  lemma OperandLoopString(s: Stmt, i: nat, ins: seq<Stmt>, s': Stmt,
                          reg0: seq<EncDec>, reg: seq<EncDec>, pool0: map<StrId, seq<bv8>>, pool: map<StrId, seq<bv8>>,
                          lo: nat, hi: nat, decodeFn: FnId,
                          g: VarId, reg': seq<EncDec>, pool': map<StrId, seq<bv8>>, temp: TempId, hi': nat, call: Stmt)
    requires i < |Ops(s)| && OperandLoop(s, i, ins, s', reg0, reg, pool0, pool, lo, hi, decodeFn)
    requires GetStrCst(Ops(s)[i]).Some? && StepEffect(reg, pool, GetStrCst(Ops(s)[i]).value, g, reg', pool')
    requires hi <= temp < hi'
    requires call == DecodeCall(decodeFn, g, temp, Ops(s)[i], |pool'[GetStrCst(Ops(s)[i]).value]|)
    ensures !(s'.Call? && i == 2)
    ensures OperandLoop(s, i + 1, ins + [CopyGlobal(temp, g), call], SetOp(s', i, Global(g)),
                        reg0, reg', pool0, pool', lo, hi', decodeFn)
  {
    var ops := Ops(s);
    var sid := GetStrCst(ops[i]).value;
    StepEncodedOnce(reg, pool, sid, g, reg', pool');
    EncodedOnceTrans(pool0, pool, pool', reg0, reg, reg');
    RewrittenStep(s, s', i, reg, reg', g);
    PairsStep(ops, i, ins, reg, reg', pool, pool', decodeFn, g, temp);
    NewFromStep(reg0, reg, reg', ops, i, g);
    TempsStep(ins, |StrIndices(ops[..i])|, lo, hi, temp, hi', g, call);
  }

  /** Before the first operand: nothing inserted, nothing rewritten. */
  lemma OperandLoopStart(s: Stmt, reg: seq<EncDec>, pool: map<StrId, seq<bv8>>, lo: nat, decodeFn: FnId)
    ensures OperandLoop(s, 0, [], s, reg, reg, pool, pool, lo, lo, decodeFn)
  {
    assert Ops(s)[..0] == [];
  }

  /** Operand i is not a string: nothing happens. */
  lemma OperandLoopOther(s: Stmt, i: nat, ins: seq<Stmt>, s': Stmt,
                         reg0: seq<EncDec>, reg: seq<EncDec>, pool0: map<StrId, seq<bv8>>, pool: map<StrId, seq<bv8>>,
                         lo: nat, hi: nat, decodeFn: FnId)
    requires i < |Ops(s)| && OperandLoop(s, i, ins, s', reg0, reg, pool0, pool, lo, hi, decodeFn)
    requires GetStrCst(Ops(s)[i]).None?
    ensures OperandLoop(s, i + 1, ins, s', reg0, reg, pool0, pool, lo, hi, decodeFn)
  {
    StrIndicesSnoc(Ops(s), i);
  }

  // ---------------------------------------------------------------------
  // The pass and its compile-time state

  class MungerState {
    /** TREE_STRING_POINTER of every string constant of the unit. */
    var pool: map<StrId, seq<bv8>>
    var readonlyz: seq<EncDec>
    /** Next unused id for a MUNGER_GLOBAL declaration or MUNGER_ARG temporary. */
    var nextId: nat
    /** The __decode declaration built by init_builtins. */
    const decodeFn: FnId

    ghost predicate Valid()
      reads this`readonlyz, this`nextId
    {
      UniqueKeys(readonlyz) &&
      (forall k :: 0 <= k < |readonlyz| ==> readonlyz[k].decNode < nextId) &&
      (forall j, k :: 0 <= j < k < |readonlyz| ==> readonlyz[j].decNode < readonlyz[k].decNode)
    }

    constructor (pool: map<StrId, seq<bv8>>, nextId: nat, decodeFn: FnId)
      ensures Valid()
      ensures this.pool == pool && readonlyz == [] && this.nextId == nextId && this.decodeFn == decodeFn
    {
      this.pool := pool;
      this.readonlyz := [];
      this.nextId := nextId;
      this.decodeFn := decodeFn;
    }

    /** encode: XOR every byte of the constant with 0xFF, unless the
        constant is already registered (and so already encoded). */
    method Encode(sid: StrId)
      requires sid in pool
      modifies this`pool
      ensures pool == if Registered(readonlyz, sid) then old(pool) else old(pool)[sid := Xor(old(pool)[sid])]
    {
      if FindDec(readonlyz, sid).Some? {
        return;
      }
      var ii := 0;
      while ii < |pool[sid]|
        invariant sid in pool && |pool[sid]| == |old(pool)[sid]| && 0 <= ii <= |pool[sid]|
        invariant pool == old(pool)[sid := pool[sid]]
        invariant forall j :: 0 <= j < ii ==> pool[sid][j] == old(pool)[sid][j] ^ 0xFF
        invariant forall j :: ii <= j < |pool[sid]| ==> pool[sid][j] == old(pool)[sid][j]
      {
        pool := pool[sid := pool[sid][ii := pool[sid][ii] ^ 0xFF]];
        ii := ii + 1;
      }
      assert pool[sid] == Xor(old(pool)[sid]);
    }

    /** add_unique: the global already registered for the constant, or a
        fresh global appended to the registry with it. */
    method AddUnique(sid: StrId) returns (g: VarId)
      requires Valid()
      modifies this`readonlyz, this`nextId
      ensures Valid()
      ensures Registered(old(readonlyz), sid) ==> readonlyz == old(readonlyz) && nextId == old(nextId)
      ensures !Registered(old(readonlyz), sid) ==>
                readonlyz == old(readonlyz) + [EncDec(sid, g)] && g == old(nextId) && nextId == old(nextId) + 1
      ensures FindDec(readonlyz, sid) == Some(g)
    {
      var found := FindDec(readonlyz, sid);
      if found.Some? {
        return found.value;
      }
      g := nextId;
      nextId := nextId + 1;
      // the entry's key is get_str_cst applied to the STRING_CST itself
      var key := GetStrCst(StringCst(sid));
      FindDecAppended(readonlyz, EncDec(key.value, g));
      readonlyz := readonlyz + [EncDec(key.value, g)];
    }

    /** create_tmp_var and make_ssa_name: a new MUNGER_ARG temporary. */
    method FreshTemp() returns (t: TempId)
      requires Valid()
      modifies this`nextId
      ensures Valid() && t == old(nextId) && nextId == old(nextId) + 1
    {
      t := nextId;
      nextId := nextId + 1;
    }

    /** encode then add_unique for one constant. */
    method EncodeAndRegister(sid: StrId) returns (g: VarId)
      requires Valid() && sid in pool
      modifies this`pool, this`readonlyz, this`nextId
      ensures Valid() && old(nextId) <= nextId
      ensures StepEffect(old(readonlyz), old(pool), sid, g, readonlyz, pool)
      ensures sid in pool && Registered(readonlyz, sid) && FindDec(readonlyz, sid) == Some(g)
    {
      Encode(sid);
      g := AddUnique(sid);
    }

    /** insert_decode_bn: the call `G = __decode(temp, orig, len)`, with G
        the global registered for orig's string and len its length, and G. */
    function InsertDecodeBn(temp: TempId, orig: Operand): (r: (Stmt, VarId))
      reads this
      requires GetStrCst(orig).Some? && GetStrCst(orig).value in pool
      requires Registered(readonlyz, GetStrCst(orig).value)
      ensures FindDec(readonlyz, GetStrCst(orig).value) == Some(r.1)
      ensures r.0 == DecodeCall(decodeFn, r.1, temp, orig, |pool[GetStrCst(orig).value]|)
    {
      var str := GetStrCst(orig).value;
      var g := FindDec(readonlyz, str).value;
      (DecodeCall(decodeFn, g, temp, orig, |pool[str]|), g)
    }

    /** process_readonlys: for every string operand i of `s`, in order,
        encode the constant, register it, and insert `MUNGER_ARG = G` then
        `G = __decode(MUNGER_ARG, orig, len)` before `s`; then operand i
        becomes G. Returns the inserted statements and the new `s`. */
    method ProcessReadonlys(s: Stmt) returns (ins: seq<Stmt>, s': Stmt)
      requires Valid() && Covered(s, pool.Keys)
      modifies this`pool, this`readonlyz, this`nextId
      ensures Valid()
      ensures OperandLoop(s, |Ops(s)|, ins, s', old(readonlyz), readonlyz, old(pool), pool, old(nextId), nextId, decodeFn)
      ensures Munged(s, ins, s', readonlyz, pool, decodeFn)
    {
      ins := [];
      s' := s;
      OperandLoopStart(s, readonlyz, pool, nextId, decodeFn);
      var i := 0;
      while i < |Ops(s)|
        invariant 0 <= i <= |Ops(s)| && Valid() && pool.Keys == old(pool).Keys
        invariant OperandLoop(s, i, ins, s', old(readonlyz), readonlyz, old(pool), pool, old(nextId), nextId, decodeFn)
      {
        ins, s' := ProcessOperand(s, i, ins, s', old(readonlyz), old(pool), old(nextId));
        i := i + 1;
      }
    }

    /** One iteration of the operand loop of process_readonlys. */
    method ProcessOperand(s: Stmt, i: nat, ins: seq<Stmt>, s': Stmt,
                          ghost reg0: seq<EncDec>, ghost pool0: map<StrId, seq<bv8>>, ghost lo: nat)
      returns (ins': seq<Stmt>, s'': Stmt)
      requires Valid() && i < |Ops(s)| && Covered(s, pool.Keys)
      requires OperandLoop(s, i, ins, s', reg0, readonlyz, pool0, pool, lo, nextId, decodeFn)
      modifies this`pool, this`readonlyz, this`nextId
      ensures Valid() && pool.Keys == old(pool).Keys
      ensures OperandLoop(s, i + 1, ins', s'', reg0, readonlyz, pool0, pool, lo, nextId, decodeFn)
    {
      var op := Ops(s')[i];
      assert op == Ops(s)[i];
      if GetStrCst(op).None? {
        OperandLoopOther(s, i, ins, s', reg0, readonlyz, pool0, pool, lo, nextId, decodeFn);
        return ins, s';
      }
      ghost var reg1, pool1, n1 := readonlyz, pool, nextId;
      var g, temp, call := MungeString(op);
      OperandLoopString(s, i, ins, s', reg0, reg1, pool0, pool1, lo, n1, decodeFn,
                        g, readonlyz, pool, temp, nextId, call);
      ins' := ins + [CopyGlobal(temp, g), call];
      s'' := SetOp(s', i, Global(g));
    }

    /** The body of the operand loop for a string operand: encode and
        add_unique give the constant's global g, a fresh MUNGER_ARG is
        made, and insert_decode_bn builds `g = __decode(temp, op, len)`. */
    method MungeString(op: Operand) returns (g: VarId, temp: TempId, call: Stmt)
      requires Valid() && GetStrCst(op).Some? && GetStrCst(op).value in pool
      modifies this`pool, this`readonlyz, this`nextId
      ensures Valid() && old(nextId) <= temp < nextId
      ensures StepEffect(old(readonlyz), old(pool), GetStrCst(op).value, g, readonlyz, pool)
      ensures call == DecodeCall(decodeFn, g, temp, op, |pool[GetStrCst(op).value]|)
    {
      g := EncodeAndRegister(GetStrCst(op).value);
      temp := FreshTemp();
      var decodeBn := InsertDecodeBn(temp, op);
      call := decodeBn.0;
    }

    /** The statement loop of munger_exec over one block: every original
        statement is processed once, its insertions go before it and are
        never visited. Block `b` is the rewritten originals `news` with
        `pre[j]` inserted before original j. */
    method MungeBlock(orig: Block) returns (b: Block, ghost pre: seq<seq<Stmt>>, ghost news: seq<Stmt>)
      requires Valid() && forall j :: 0 <= j < |orig| ==> Covered(orig[j], pool.Keys)
      modifies this`pool, this`readonlyz, this`nextId
      ensures Valid()
      ensures old(readonlyz) <= readonlyz
      ensures EncodedOnce(old(pool), pool, old(readonlyz), readonlyz)
      ensures AllMunged(orig, pre, news, readonlyz, pool, decodeFn) && b == Interleave(pre, news)
      ensures NewFromStmts(old(readonlyz), readonlyz, orig)
    {
      b := orig;
      pre := [];
      news := [];
      var i: nat := 0;
      ghost var j: nat := 0;
      ghost var pool00, reg00 := pool, readonlyz;
      assert orig[0..] == orig;
      while i < |b|
        invariant Valid() && BlockWalk(orig, j, pre, news, b, i, reg00, pool00, readonlyz, pool, decodeFn)
        decreases |orig| - j
      {
        var ins, s';
        b, i, ins, s' := MungeNext(b, i, orig, j, pre, news, reg00, pool00);
        pre, news := pre + [ins], news + [s'];
        j := j + 1;
      }
      BlockWalkDone(orig, j, pre, news, b, i, reg00, pool00, readonlyz, pool, decodeFn);
    }

    /** One pass of munger_exec's statement loop: process_readonlys on the
        statement at the cursor, whose pairs go in before it, after which
        the cursor moves past it. */
    method MungeNext(b: Block, i: nat, ghost orig: Block, ghost j: nat, ghost pre: seq<seq<Stmt>>, ghost news: seq<Stmt>,
                     ghost reg00: seq<EncDec>, ghost pool00: map<StrId, seq<bv8>>)
      returns (b': Block, i': nat, ins: seq<Stmt>, s': Stmt)
      requires Valid() && j < |orig| && Covered(orig[j], pool.Keys)
      requires BlockWalk(orig, j, pre, news, b, i, reg00, pool00, readonlyz, pool, decodeFn)
      modifies this`pool, this`readonlyz, this`nextId
      ensures Valid() && BlockWalk(orig, j + 1, pre + [ins], news + [s'], b', i', reg00, pool00, readonlyz, pool, decodeFn)
    {
      InsertBeforeStep(b, i, pre, news, orig, j, [], Nop);
      ghost var pool0, reg0 := pool, readonlyz;
      ins, s' := ProcessReadonlys(b[i]);
      MungeBlockStep(orig, j, pre, news, b, i, ins, s', reg00, pool00, reg0, pool0, readonlyz, pool, decodeFn);
      b' := b[..i] + ins + [s'] + b[i + 1..];
      i' := i + |ins| + 1;
    }

    /** munger_exec: MungeBlock on every basic block of the function. */
    method Exec(blocks: seq<Block>) returns (blocks': seq<Block>, ghost pres: seq<seq<seq<Stmt>>>, ghost news: seq<seq<Stmt>>)
      requires Valid() && PoolCovers(blocks, pool.Keys)
      modifies this`pool, this`readonlyz, this`nextId
      ensures Valid()
      ensures old(readonlyz) <= readonlyz
      ensures EncodedOnce(old(pool), pool, old(readonlyz), readonlyz)
      ensures BlocksMunged(blocks, blocks', pres, news, readonlyz, pool, decodeFn)
      ensures NewFromBlocks(old(readonlyz), readonlyz, blocks)
    {
      blocks' := [];
      pres := [];
      news := [];
      for k := 0 to |blocks|
        invariant Valid()
        invariant old(readonlyz) <= readonlyz && pool.Keys == old(pool).Keys
        invariant EncodedOnce(old(pool), pool, old(readonlyz), readonlyz)
        invariant BlocksMunged(blocks[..k], blocks', pres, news, readonlyz, pool, decodeFn)
        invariant NewFromBlocks(old(readonlyz), readonlyz, blocks[..k])
      {
        ghost var pool0, reg0 := pool, readonlyz;
        var b, bp, bn := MungeBlock(blocks[k]);
        EncodedOnceTrans(old(pool), pool0, pool, old(readonlyz), reg0, readonlyz);
        BlocksMungedStep(blocks, k, blocks', pres, news, b, bp, bn, reg0, readonlyz, pool0, pool, decodeFn);
        NewFromBlocksStep(old(readonlyz), reg0, readonlyz, blocks, k);
        blocks', pres, news := blocks' + [b], pres + [bp], news + [bn];
      }
      assert blocks[..|blocks|] == blocks;
    }
  }
}

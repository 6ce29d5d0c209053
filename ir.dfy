/** The slice of GCC's GIMPLE intermediate representation that the five
    plugins read and rewrite: operands, statements, basic blocks and the
    functions of the call graph. Tree nodes that have an identity in GCC
    (declarations, string constants, SSA names) carry an integer id here. */
module IR {

  datatype Option<+T> = None | Some(value: T) {
    function GetOr(default: T): T {
      if Some? then value else default
    }
  }

  type FnId = nat     // a FUNCTION_DECL
  type VarId = nat    // a VAR_DECL
  type StrId = nat    // a STRING_CST (its bytes live outside the operand)
  type TempId = nat   // an SSA_NAME

  /** Tree operands. `readonly` is the node's own readonly flag (what
      TYPE_READONLY reads when handed an expression or a declaration). */
  datatype Operand =
    | Null                                                        // NULL_TREE
    | IntCst(value: int)                                          // INTEGER_CST
    | StringCst(sid: StrId)                                       // STRING_CST
    | VarDecl(vid: VarId, readonly: bool, init: Option<Operand>)  // VAR_DECL and its DECL_INITIAL
    | FnDecl(fid: FnId)                                           // FUNCTION_DECL
    | ResultDecl(owner: FnId)                                     // DECL_RESULT of a function
    | AddrOf(base: Operand, readonly: bool)                       // ADDR_EXPR
    | ArrayRef(base: Operand, readonly: bool)                     // ARRAY_REF (index not modelled)
    | MemRef(ptr: Operand)                                        // MEM_REF (a load through ptr)
    | Ssa(tid: TempId)                                            // SSA_NAME

  /** Tree code of an assignment's right-hand side. */
  datatype Code = Single | Plus | Minus | Mult | TruncMod

  datatype Stmt =
    | Assign(code: Code, lhs: Operand, rhs: seq<Operand>)
    | Call(lhs: Operand, callee: Operand, args: seq<Operand>)   // lhs is Null when the result is dropped
    | Nop
    | Asm(text: string)

  type Block = seq<Stmt>

  /** A call-graph node: `hasBody` is DECL_STRUCT_FUNCTION being non-null,
      `isExternal` is DECL_EXTERNAL. */
  datatype Function = Function(id: FnId, name: string, hasBody: bool, isExternal: bool, blocks: seq<Block>)

  /** `&f`, the callee operand of a direct call. */
  function FnAddr(f: FnId): Operand {
    AddrOf(FnDecl(f), false)
  }

  /** `f(args)` with the result dropped. */
  function CallTo(f: FnId, args: seq<Operand>): Stmt {
    Call(Null, FnAddr(f), args)
  }

  /** The declaration a call statement calls directly, if any. */
  function CalleeId(s: Stmt): (r: Option<FnId>)
    requires s.Call?
    ensures r.None? ==> forall f :: s.callee != FnAddr(f)
    ensures r.Some? ==> s.callee == FnAddr(r.value)
  {
    if s.callee.AddrOf? && s.callee.base.FnDecl? && !s.callee.readonly then Some(s.callee.base.fid) else None
  }

  /** gimple_op(stmt, i) for i < gimple_num_ops(stmt): an assignment's
      operands are its lhs then its rhs operands; a call's are its lhs, its
      callee, its static chain (always NULL here), then its arguments. */
  function Ops(s: Stmt): seq<Operand> {
    match s
    case Assign(_, lhs, rhs) => [lhs] + rhs
    case Call(lhs, callee, args) => [lhs, callee, Null] + args
    case Nop => []
    case Asm(_) => []
  }

  /** gimple_set_op(stmt, i, x). The static chain slot of a call is never set. */
  function SetOp(s: Stmt, i: nat, x: Operand): (r: Stmt)
    requires i < |Ops(s)|
    requires !(s.Call? && i == 2)
    ensures Ops(r) == Ops(s)[i := x]
    ensures r.Assign? == s.Assign? && r.Call? == s.Call?
    ensures r.Assign? ==> r.code == s.code
  {
    match s
    case Assign(code, lhs, rhs) =>
      if i == 0 then Assign(code, x, rhs)
      else
        assert [lhs] + rhs[i - 1 := x] == ([lhs] + rhs)[i := x];
        Assign(code, lhs, rhs[i - 1 := x])
    case Call(lhs, callee, args) =>
      if i == 0 then Call(x, callee, args)
      else if i == 1 then Call(lhs, x, args)
      else
        assert [lhs, callee, Null] + args[i - 3 := x] == ([lhs, callee, Null] + args)[i := x];
        Call(lhs, callee, args[i - 3 := x])
  }

  /** The block that results from walking `orig` front to back and inserting
      `pres[j]` immediately before original statement `j`: the shape every
      plugin leaves behind, since statements it inserts are never visited. */
  function Interleave(pres: seq<seq<Stmt>>, orig: seq<Stmt>): seq<Stmt>
    requires |pres| == |orig|
  {
    if orig == [] then []
    else Interleave(pres[..|pres| - 1], orig[..|orig| - 1]) + pres[|pres| - 1] + [orig[|orig| - 1]]
  }

  /** The number of statements inserted, over all original statements. */
  function TotalLen(pres: seq<seq<Stmt>>): nat {
    if pres == [] then 0 else TotalLen(pres[..|pres| - 1]) + |pres[|pres| - 1]|
  }

  lemma InterleaveSnoc(pres: seq<seq<Stmt>>, orig: seq<Stmt>, p: seq<Stmt>, s: Stmt)
    requires |pres| == |orig|
    ensures Interleave(pres + [p], orig + [s]) == Interleave(pres, orig) + p + [s]
    ensures TotalLen(pres + [p]) == TotalLen(pres) + |p|
  {
    assert (pres + [p])[..|pres|] == pres;
    assert (orig + [s])[..|orig|] == orig;
  }

  /** One step of a cursor walk that has produced `Interleave(pre, news)`
      for the first j originals and sits on original j at index i: splicing
      `ins` and the rewritten `s'` in place of it extends the walk by one
      original, and the cursor moves past both. */
  lemma InsertBeforeStep(b: seq<Stmt>, i: nat, pre: seq<seq<Stmt>>, news: seq<Stmt>, orig: seq<Stmt>, j: nat,
                         ins: seq<Stmt>, s': Stmt)
    requires |pre| == |news| && j < |orig|
    requires b == Interleave(pre, news) + orig[j..] && i == |Interleave(pre, news)|
    ensures i < |b| && b[i] == orig[j]
    ensures b[..i] + ins + [s'] + b[i + 1..] == Interleave(pre + [ins], news + [s']) + orig[j + 1..]
    ensures i + |ins| + 1 == |Interleave(pre + [ins], news + [s'])|
  {
    InterleaveSnoc(pre, news, ins, s');
    assert orig[j..] == [orig[j]] + orig[j + 1..];
    assert b[..i] == Interleave(pre, news);
    assert b[i + 1..] == orig[j + 1..];
  }

  /** A walk over two runs of originals is the two walks side by side. */
  lemma {:induction false} InterleaveAppend(p1: seq<seq<Stmt>>, o1: seq<Stmt>, p2: seq<seq<Stmt>>, o2: seq<Stmt>)
    requires |p1| == |o1| && |p2| == |o2|
    ensures Interleave(p1 + p2, o1 + o2) == Interleave(p1, o1) + Interleave(p2, o2)
  {
    if o2 == [] {
      assert p1 + p2 == p1 && o1 + o2 == o1;
    } else {
      var n := |o2| - 1;
      InterleaveAppend(p1, o1, p2[..n], o2[..n]);
      assert (p1 + p2)[..|p1 + p2| - 1] == p1 + p2[..n];
      assert (o1 + o2)[..|o1 + o2| - 1] == o1 + o2[..n];
    }
  }

  /** Every original statement survives, and the block grows by exactly the
      inserted statements. */
  lemma {:induction false} InterleaveLength(pres: seq<seq<Stmt>>, orig: seq<Stmt>)
    requires |pres| == |orig|
    ensures |Interleave(pres, orig)| == |orig| + TotalLen(pres)
  {
    if orig != [] {
      InterleaveLength(pres[..|pres| - 1], orig[..|orig| - 1]);
    }
  }

  /** Inserting nothing anywhere leaves the block as it was. */
  lemma {:induction false} InterleaveNothing(pres: seq<seq<Stmt>>, orig: seq<Stmt>)
    requires |pres| == |orig|
    requires forall j :: 0 <= j < |pres| ==> pres[j] == []
    ensures Interleave(pres, orig) == orig
  {
    if orig != [] {
      InterleaveNothing(pres[..|pres| - 1], orig[..|orig| - 1]);
    }
  }

  /** Inserting only empty lists means nothing was inserted. */
  lemma {:induction false} TotalLenZero(pres: seq<seq<Stmt>>)
    requires TotalLen(pres) == 0
    ensures forall j :: 0 <= j < |pres| ==> pres[j] == []
  {
    if pres != [] {
      TotalLenZero(pres[..|pres| - 1]);
    }
  }

  /** The number of statements in a function body. */
  function StmtCount(blocks: seq<Block>): nat {
    if blocks == [] then 0 else StmtCount(blocks[..|blocks| - 1]) + |blocks[|blocks| - 1]|
  }

  lemma StmtCountSnoc(blocks: seq<Block>, b: Block)
    ensures StmtCount(blocks + [b]) == StmtCount(blocks) + |b|
  {
    assert (blocks + [b])[..|blocks|] == blocks;
  }
}

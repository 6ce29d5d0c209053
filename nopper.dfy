/** The nopper pass: the program's statements are counted once, a nop quota
    is split evenly over them, and that many `mov %eax, %eax` statements
    are inserted before every statement of every function compiled. */
module Nopper {
  import opened IR
  import opened Options

  /** The assembler template of the inserted nop. */
  const NopText: string := "mov %%eax, %%eax"

  /** errno's EINVAL; nopper_exec returns -EINVAL through an unsigned int. */
  const EINVAL: int := 22

  function NopStmt(): Stmt {
    Asm(NopText)
  }

  /** k nops in a row. */
  function Nops(k: nat): (r: seq<Stmt>)
    ensures |r| == k && forall t :: 0 <= t < k ==> r[t] == NopStmt()
  {
    seq(k, _ => NopStmt())
  }

  /** C's conversion of an int return value to unsigned int. */
  function AsUnsigned32(x: int): (r: nat)
    ensures r < 0x1_0000_0000 && (r - x) % 0x1_0000_0000 == 0
  {
    x % 0x1_0000_0000
  }

  // ---------------------------------------------------------------------
  // count_stmts

  /** The statements of all functions of the call graph that have a body. */
  function TotalStmts(cgraph: seq<Function>): nat {
    if cgraph == [] then 0
    else
      var f := cgraph[|cgraph| - 1];
      TotalStmts(cgraph[..|cgraph| - 1]) + (if f.hasBody then StmtCount(f.blocks) else 0)
  }

  /** count_stmts: one increment per statement of every block of every
      function that has a body. */
  method CountStmts(cgraph: seq<Function>) returns (n: nat)
    ensures n == TotalStmts(cgraph)
  {
    n := 0;
    for f := 0 to |cgraph|
      invariant n == TotalStmts(cgraph[..f])
    {
      assert cgraph[..f + 1][..f] == cgraph[..f];
      if !cgraph[f].hasBody {
        continue;
      }
      var blocks := cgraph[f].blocks;
      for b := 0 to |blocks|
        invariant n == TotalStmts(cgraph[..f]) + StmtCount(blocks[..b])
      {
        StmtCountSnoc(blocks[..b], blocks[b]);
        assert blocks[..b + 1] == blocks[..b] + [blocks[b]];
        for j := 0 to |blocks[b]|
          invariant n == TotalStmts(cgraph[..f]) + StmtCount(blocks[..b]) + j
        {
          n := n + 1;
        }
      }
      assert blocks[..|blocks|] == blocks;
    }
    assert cgraph[..|cgraph|] == cgraph;
  }

  // ---------------------------------------------------------------------
  // The quota

  /** The number of nops asked for: numnops when positive, else five per statement. */
  function Target(nNops: int, counted: nat): int {
    if nNops <= 0 then 5 * counted else nNops
  }

  /** nops_per_stmt: the quota divided by the statement count, rounded down
      (both operands are positive, so C's division and Dafny's agree). */
  function NopsPerStmt(nNops: int, counted: nat): (k: nat)
    requires counted > 0
    ensures k * counted <= Target(nNops, counted) < (k + 1) * counted
    ensures nNops <= 0 ==> k == 5
  {
    Target(nNops, counted) / counted
  }

  // ---------------------------------------------------------------------
  // The padded block

  function NopPres(n: nat, k: nat): (r: seq<seq<Stmt>>)
    ensures |r| == n
  {
    seq(n, _ => Nops(k))
  }

  /** A block with k nops inserted before each of its statements. */
  function Pad(b: Block, k: nat): Block {
    Interleave(NopPres(|b|, k), b)
  }

  lemma PadSnoc(b: Block, s: Stmt, k: nat)
    ensures Pad(b + [s], k) == Pad(b, k) + Nops(k) + [s]
  {
    assert NopPres(|b| + 1, k) == NopPres(|b|, k) + [Nops(k)];
    InterleaveSnoc(NopPres(|b|, k), b, Nops(k), s);
  }

  /** Every statement becomes k+1 statements. */
  lemma {:induction false} PadLength(b: Block, k: nat)
    ensures |Pad(b, k)| == |b| * (k + 1)
  {
    if b != [] {
      var n := |b| - 1;
      var p := b[..n];
      assert b == p + [b[n]];
      PadSnoc(p, b[n], k);
      PadLength(p, k);
      MulSucc(n, k + 1);
    }
  }

  /** Statement j of the block is at j*(k+1)+k, and the k positions before
      it hold nops. */
  lemma {:induction false} PadAt(b: Block, k: nat, j: nat, t: nat)
    requires j < |b| && t <= k
    ensures j * (k + 1) + t < |Pad(b, k)|
    ensures Pad(b, k)[j * (k + 1) + t] == if t < k then NopStmt() else b[j]
  {
    var n := |b|;
    var p := b[..n - 1];
    assert b == p + [b[n - 1]];
    PadSnoc(p, b[n - 1], k);
    PadLength(p, k);
    PadLength(b, k);
    if j < n - 1 {
      assert (j + 1) * (k + 1) <= (n - 1) * (k + 1) by {
        MulMonotone(j + 1, n - 1, k + 1);
      }
      assert j * (k + 1) + t < (j + 1) * (k + 1);
      PadAt(p, k, j, t);
    } else {
      assert j * (k + 1) + t == |Pad(p, k)| + t;
    }
  }

  lemma MulMonotone(a: nat, b: nat, c: nat)
    requires a <= b
    ensures a * c <= b * c
  {
  }

  lemma MulSucc(a: nat, c: nat)
    ensures (a + 1) * c == a * c + c
  {
  }

  lemma MulAdd(k: nat, a: nat, b: nat)
    ensures k * (a + b) == k * a + k * b
  {
  }

  /** The block without its nops (any `mov %eax, %eax` asm statement). */
  function Strip(b: Block): (r: Block)
    ensures forall t :: 0 <= t < |r| ==> r[t] != NopStmt()
    ensures |r| <= |b|
  {
    if b == [] then []
    else Strip(b[..|b| - 1]) + (if b[|b| - 1] == NopStmt() then [] else [b[|b| - 1]])
  }

  lemma {:induction false} StripAppend(x: Block, y: Block)
    ensures Strip(x + y) == Strip(x) + Strip(y)
  {
    if y != [] {
      assert (x + y)[..|x + y| - 1] == x + y[..|y| - 1];
      StripAppend(x, y[..|y| - 1]);
    } else {
      assert x + y == x;
    }
  }

  lemma {:induction false} StripNops(k: nat)
    ensures Strip(Nops(k)) == []
  {
    if k > 0 {
      assert Nops(k)[..k - 1] == Nops(k - 1);
      StripNops(k - 1);
    }
  }

  /** Taking the nops out again gives back the block's own statements:
      padding only ever adds nops. */
  lemma {:induction false} StripPad(b: Block, k: nat)
    ensures Strip(Pad(b, k)) == Strip(b)
  {
    if b != [] {
      var p := b[..|b| - 1];
      assert b == p + [b[|b| - 1]];
      PadSnoc(p, b[|b| - 1], k);
      StripPad(p, k);
      StripAppend(Pad(p, k) + Nops(k), [b[|b| - 1]]);
      StripAppend(Pad(p, k), Nops(k));
      StripNops(k);
      assert [b[|b| - 1]][..0] == [];
    }
  }

  /** A block with no nops of its own is recovered exactly. */
  lemma {:induction false} StripNoNops(b: Block)
    requires forall t :: 0 <= t < |b| ==> b[t] != NopStmt()
    ensures Strip(b) == b
  {
    if b != [] {
      StripNoNops(b[..|b| - 1]);
    }
  }

  /** The number of nops in a block. */
  function NopCount(b: Block): nat {
    if b == [] then 0 else NopCount(b[..|b| - 1]) + (if b[|b| - 1] == NopStmt() then 1 else 0)
  }

  lemma {:induction false} NopCountAppend(x: Block, y: Block)
    ensures NopCount(x + y) == NopCount(x) + NopCount(y)
  {
    if y != [] {
      assert (x + y)[..|x + y| - 1] == x + y[..|y| - 1];
      NopCountAppend(x, y[..|y| - 1]);
    } else {
      assert x + y == x;
    }
  }

  lemma {:induction false} NopCountNops(k: nat)
    ensures NopCount(Nops(k)) == k
  {
    if k > 0 {
      assert Nops(k)[..k - 1] == Nops(k - 1);
      NopCountNops(k - 1);
    }
  }

  /** Padding adds exactly k nops per statement. */
  lemma {:induction false} PadNopCount(b: Block, k: nat)
    ensures NopCount(Pad(b, k)) == NopCount(b) + |b| * k
  {
    if b != [] {
      var n := |b| - 1;
      var p := b[..n];
      var s := b[n];
      assert b == p + [s];
      PadSnoc(p, s, k);
      PadNopCount(p, k);
      NopCountSnoc(Pad(p, k) + Nops(k), s);
      NopCountAppend(Pad(p, k), Nops(k));
      NopCountNops(k);
      NopCountSnoc(p, s);
      MulSucc(n, k);
    }
  }

  lemma NopCountSnoc(b: Block, s: Stmt)
    ensures NopCount(b + [s]) == NopCount(b) + (if s == NopStmt() then 1 else 0)
  {
    assert (b + [s])[..|b|] == b;
  }

  /** The nops in a function body. */
  function BodyNops(blocks: seq<Block>): nat {
    if blocks == [] then 0 else BodyNops(blocks[..|blocks| - 1]) + NopCount(blocks[|blocks| - 1])
  }

  /** The nops in every function of the call graph that has a body. */
  function ProgramNops(cgraph: seq<Function>): nat {
    if cgraph == [] then 0
    else
      var f := cgraph[|cgraph| - 1];
      ProgramNops(cgraph[..|cgraph| - 1]) + (if f.hasBody then BodyNops(f.blocks) else 0)
  }

  /** The call graph after the pass has run on every function with a body. */
  function PadProgram(cgraph: seq<Function>, k: nat): (r: seq<Function>)
    ensures |r| == |cgraph|
    ensures forall m :: 0 <= m < |cgraph| ==>
              r[m] == if cgraph[m].hasBody then cgraph[m].(blocks := PadAll(cgraph[m].blocks, k)) else cgraph[m]
  {
    seq(|cgraph|, m requires 0 <= m < |cgraph| =>
      if cgraph[m].hasBody then cgraph[m].(blocks := PadAll(cgraph[m].blocks, k)) else cgraph[m])
  }

  /** Padding a body adds k nops per statement. */
  lemma {:induction false} BodyPadNops(blocks: seq<Block>, k: nat)
    ensures BodyNops(PadAll(blocks, k)) == BodyNops(blocks) + k * StmtCount(blocks)
  {
    if blocks != [] {
      var n := |blocks| - 1;
      BodyPadNops(blocks[..n], k);
      assert PadAll(blocks, k)[..n] == PadAll(blocks[..n], k);
      PadNopCount(blocks[n], k);
      MulAdd(k, StmtCount(blocks[..n]), |blocks[n]|);
    }
  }

  /** Over the whole program the pass inserts exactly k nops per counted
      statement: no more than the quota, and fewer than one nop per counted
      statement short of it. */
  lemma {:induction false} QuotaSpent(cgraph: seq<Function>, nNops: int)
    requires TotalStmts(cgraph) > 0
    ensures var k := NopsPerStmt(nNops, TotalStmts(cgraph));
            ProgramNops(PadProgram(cgraph, k)) == ProgramNops(cgraph) + k * TotalStmts(cgraph) &&
            0 <= Target(nNops, TotalStmts(cgraph)) - k * TotalStmts(cgraph) < TotalStmts(cgraph)
  {
    var counted := TotalStmts(cgraph);
    var k := NopsPerStmt(nNops, counted);
    ProgramPadNops(cgraph, k);
    MulSucc(k, counted);
  }

  lemma {:induction false} ProgramPadNops(cgraph: seq<Function>, k: nat)
    ensures ProgramNops(PadProgram(cgraph, k)) == ProgramNops(cgraph) + k * TotalStmts(cgraph)
  {
    if cgraph != [] {
      var n := |cgraph| - 1;
      var f := cgraph[n];
      ProgramPadNops(cgraph[..n], k);
      var padded := PadProgram(cgraph, k);
      assert padded[..n] == PadProgram(cgraph[..n], k);
      assert padded[n].hasBody == f.hasBody && (f.hasBody ==> padded[n].blocks == PadAll(f.blocks, k));
      MulAdd(k, TotalStmts(cgraph[..n]), if f.hasBody then StmtCount(f.blocks) else 0);
      if f.hasBody {
        BodyPadNops(f.blocks, k);
      }
    }
  }

  /** The inserted nops of one function body. */
  function PadAll(blocks: seq<Block>, k: nat): (r: seq<Block>)
    ensures |r| == |blocks| && forall m :: 0 <= m < |blocks| ==> r[m] == Pad(blocks[m], k)
  {
    seq(|blocks|, m requires 0 <= m < |blocks| => Pad(blocks[m], k))
  }

  // ---------------------------------------------------------------------
  // The pass

  /** insert_nop on a copy of the iterator: a nop goes immediately before
      statement i, which moves to i+1. */
  function InsertNop(b: Block, i: nat): (r: Block)
    requires i <= |b|
    ensures |r| == |b| + 1 && r[i] == NopStmt() && r[..i] == b[..i] && r[i + 1..] == b[i..]
  {
    b[..i] + [NopStmt()] + b[i..]
  }

  /** The inner loop of nopper_exec: nops_per_stmt calls to insert_nop,
      each before the statement the cursor is on. */
  method InsertNops(b: Block, i: nat, k: nat) returns (b': Block)
    requires i <= |b|
    ensures b' == b[..i] + Nops(k) + b[i..]
  {
    b' := b;
    for t := 0 to k
      invariant b' == b[..i] + Nops(t) + b[i..]
    {
      assert b'[..i + t] == b[..i] + Nops(t) && b'[i + t..] == b[i..];
      b' := InsertNop(b', i + t);
      assert Nops(t) + [NopStmt()] == Nops(t + 1);
    }
  }

  /** The statement loop of nopper_exec over one block. */
  method PadBlock(b: Block, k: nat) returns (b': Block)
    ensures b' == Pad(b, k)
  {
    b' := b;
    var i := 0;
    ghost var j := 0;
    while i < |b'|
      invariant 0 <= j <= |b|
      invariant b' == Pad(b[..j], k) + b[j..] && i == |Pad(b[..j], k)|
      decreases |b| - j
    {
      PadStep(b, j, k, b');
      b' := InsertNops(b', i, k);
      i := i + k + 1;
      j := j + 1;
    }
    assert b[..j] == b;
  }

  /** One turn of the statement loop: the nops go in front of statement j,
      which then joins the padded prefix. */
  lemma PadStep(b: Block, j: nat, k: nat, cur: Block)
    requires j <= |b| && cur == Pad(b[..j], k) + b[j..] && |Pad(b[..j], k)| < |cur|
    ensures j < |b|
    ensures cur[..|Pad(b[..j], k)|] + Nops(k) + cur[|Pad(b[..j], k)|..] == Pad(b[..j + 1], k) + b[j + 1..]
    ensures |Pad(b[..j + 1], k)| == |Pad(b[..j], k)| + k + 1
  {
    var pre := Pad(b[..j], k);
    assert cur[..|pre|] == pre && cur[|pre|..] == b[j..];
    assert b[j..] == [b[j]] + b[j + 1..];
    assert b[..j + 1] == b[..j] + [b[j]];
    PadSnoc(b[..j], b[j], k);
  }

  /** The FOR_EACH_BB loop of nopper_exec. */
  method PadBody(body: seq<Block>, k: nat) returns (body': seq<Block>)
    ensures body' == PadAll(body, k)
  {
    body' := [];
    for m := 0 to |body|
      invariant |body'| == m && forall p :: 0 <= p < m ==> body'[p] == Pad(body[p], k)
    {
      var b := PadBlock(body[m], k);
      body' := body' + [b];
    }
  }

  class NopperState {
    /** n_nops: from the numnops option, then replaced by the quota actually used. */
    var nNops: int
    /** The static nops_per_stmt of nopper_exec. */
    var nopsPerStmt: nat
    /** The static counted_stmts: 0 until a count succeeds. */
    var countedStmts: nat

    /** Once the statements are counted, the per-statement share splits the
        quota with less than one statement's worth left over. */
    ghost predicate Valid()
      reads this
    {
      (countedStmts == 0 ==> nopsPerStmt == 0) &&
      (countedStmts > 0 ==> nopsPerStmt * countedStmts <= nNops < (nopsPerStmt + 1) * countedStmts)
    }

    /** plugin_init: n_nops from the last argument whose key starts "numnop". */
    constructor (args: seq<PluginArg>)
      ensures Valid()
      ensures nNops == LastValue(args, "numnops", 6).GetOr(0) && nopsPerStmt == 0 && countedStmts == 0
    {
      var v := ScanOption(args, "numnops", 6);
      nNops := v;
      nopsPerStmt := 0;
      countedStmts := 0;
    }

    /** nopper_exec for the function whose body is `body`, with `cgraph` the
        program's call graph: count on the first run that finds statements,
        fail with -EINVAL while there are none, then pad every block. */
    method Exec(cgraph: seq<Function>, body: seq<Block>) returns (ret: nat, body': seq<Block>)
      requires Valid()
      modifies this
      ensures Valid()
      ensures old(countedStmts) == 0 && TotalStmts(cgraph) == 0 ==>
                ret == AsUnsigned32(-EINVAL) && body' == body &&
                nNops == old(nNops) && nopsPerStmt == 0 && countedStmts == 0
      ensures old(countedStmts) == 0 && TotalStmts(cgraph) > 0 ==>
                countedStmts == TotalStmts(cgraph) && nNops == Target(old(nNops), countedStmts) &&
                nopsPerStmt == NopsPerStmt(old(nNops), countedStmts)
      ensures old(countedStmts) > 0 ==>
                countedStmts == old(countedStmts) && nNops == old(nNops) && nopsPerStmt == old(nopsPerStmt)
      ensures old(countedStmts) > 0 || TotalStmts(cgraph) > 0 ==> ret == 0 && body' == PadAll(body, nopsPerStmt)
    {
      if countedStmts == 0 {
        var n := CountStmts(cgraph);
        if n == 0 {
          return AsUnsigned32(-EINVAL), body;
        }
        countedStmts := n;
        if nNops <= 0 {
          nNops := countedStmts * 5;
        }
        nopsPerStmt := nNops / countedStmts;
        assert nopsPerStmt == NopsPerStmt(old(nNops), countedStmts);
      }
      body' := PadBody(body, nopsPerStmt);
      ret := 0;
    }
  }

  /** The option is recognised on its first six characters only. */
  lemma NumnopsPrefix(key: string)
    ensures StrnEq("numnops", key, 6) <==> |key| >= 6 && key[..6] == "numnop"
  {
    StrnEqPrefix("numnops", key, 6);
  }
}

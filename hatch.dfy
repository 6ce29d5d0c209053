/** The hatch pass: once all IPA passes are done, a call to a runtime hook
    (taking and returning nothing) is planted at the start of main. */
module Hatch {
  import opened IR

  /** The function the pass is after: one with a body, named main. */
  predicate IsMain(f: Function) {
    f.hasBody && f.name == "main"
  }

  /** The first node of the call graph, from index i on, that is main. */
  function FindMainFrom(cgraph: seq<Function>, i: nat): (r: Option<nat>)
    requires i <= |cgraph|
    ensures r.Some? ==> i <= r.value < |cgraph| && IsMain(cgraph[r.value]) &&
                        forall j :: i <= j < r.value ==> !IsMain(cgraph[j])
    ensures r.None? ==> forall j :: i <= j < |cgraph| ==> !IsMain(cgraph[j])
    decreases |cgraph| - i
  {
    if i == |cgraph| then None
    else if IsMain(cgraph[i]) then Some(i)
    else FindMainFrom(cgraph, i + 1)
  }

  function FindMain(cgraph: seq<Function>): Option<nat> {
    FindMainFrom(cgraph, 0)
  }

  /** `hook()`, built with no arguments. */
  function HookCall(hook: FnId): Stmt {
    CallTo(hook, [])
  }

  /** Where gsi_insert_after from the start of the first block puts the
      call: the only statement of an empty block, else the second one. */
  function HookPos(b: Block): nat {
    if b == [] then 0 else 1
  }

  /** open_up_the_magic on `f`: the call goes after the first statement of
      the first block. */
  function OpenUpTheMagic(f: Function, hook: FnId): (r: Function)
    ensures r.id == f.id && r.name == f.name && r.hasBody == f.hasBody && r.isExternal == f.isExternal
    ensures |r.blocks| == |f.blocks|
    ensures forall k :: 1 <= k < |f.blocks| ==> r.blocks[k] == f.blocks[k]
    ensures f.blocks != [] ==>
              |r.blocks[0]| == |f.blocks[0]| + 1 && r.blocks[0][HookPos(f.blocks[0])] == HookCall(hook) &&
              r.blocks[0][..HookPos(f.blocks[0])] + r.blocks[0][HookPos(f.blocks[0]) + 1..] == f.blocks[0]
  {
    if f.blocks == [] then f
    else
      var b := f.blocks[0];
      var p := HookPos(b);
      var b' := b[..p] + [HookCall(hook)] + b[p..];
      assert b'[..p] + b'[p + 1..] == b;
      f.(blocks := f.blocks[0 := b'])
  }

  /** hatch_exec: walk the call graph, skip nodes without a body or not
      named main, plant the call in the first main found and stop. */
  method Exec(cgraph: seq<Function>, hook: FnId) returns (cgraph': seq<Function>)
    ensures FindMain(cgraph).Some? ==>
              cgraph' == cgraph[FindMain(cgraph).value := OpenUpTheMagic(cgraph[FindMain(cgraph).value], hook)]
    ensures FindMain(cgraph).None? ==> cgraph' == cgraph
  {
    cgraph' := cgraph;
    for i := 0 to |cgraph|
      invariant cgraph' == cgraph
      invariant FindMain(cgraph) == FindMainFrom(cgraph, i)
    {
      if !cgraph[i].hasBody {
        continue;
      }
      if cgraph[i].name != "main" {
        continue;
      }
      cgraph' := cgraph'[i := OpenUpTheMagic(cgraph[i], hook)];
      break;
    }
  }

  /** Only main changes, and it changes by exactly one inserted call. */
  lemma ExecTouchesOnlyMain(cgraph: seq<Function>, hook: FnId, k: nat)
    requires FindMain(cgraph).Some? && k < |cgraph| && k != FindMain(cgraph).value
    ensures cgraph[FindMain(cgraph).value := OpenUpTheMagic(cgraph[FindMain(cgraph).value], hook)][k] == cgraph[k]
    ensures StmtCount(OpenUpTheMagic(cgraph[FindMain(cgraph).value], hook).blocks) ==
            StmtCount(cgraph[FindMain(cgraph).value].blocks) + (if cgraph[FindMain(cgraph).value].blocks == [] then 0 else 1)
  {
    var f := cgraph[FindMain(cgraph).value];
    var r := OpenUpTheMagic(f, hook);
    if f.blocks != [] {
      StmtCountFront(f.blocks);
      StmtCountFront(r.blocks);
      assert r.blocks[1..] == f.blocks[1..];
    }
  }

  lemma {:induction false} StmtCountFront(blocks: seq<Block>)
    requires blocks != []
    ensures StmtCount(blocks) == |blocks[0]| + StmtCount(blocks[1..])
  {
    if |blocks| > 1 {
      var init := blocks[..|blocks| - 1];
      StmtCountFront(init);
      assert init[1..] == blocks[1..][..|blocks[1..]| - 1];
    } else {
      assert blocks[..0] == [];
    }
  }
}

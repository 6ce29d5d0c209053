/** The slimer runtime, linked into the obfuscated program: a table of
    junk-function pointers that main's prologue fills and every injected
    sequence reads. */
module SlimerBuiltins {
  import opened IR

  /** One slot of __funcs: a function pointer, None for NULL. */
  type Slot = Option<FnId>

  /** The table calloc hands back for n slots: every slot NULL. */
  function TableInit(n: nat): (t: seq<Slot>)
    ensures |t| == n && forall i :: 0 <= i < n ==> t[i] == None
  {
    seq(n, _ => None)
  }

  /** __slimer_add_fn(&fs[i], i) for i = 0, 1, ... in order on table t;
      None once an index falls outside the table. */
  function AddFns(t: seq<Slot>, fs: seq<FnId>): Option<seq<Slot>> {
    if fs == [] then Some(t)
    else
      match AddFns(t, fs[..|fs| - 1])
      case None => None
      case Some(t') => if |fs| - 1 < |t'| then Some(t'[|fs| - 1 := Some(fs[|fs| - 1])]) else None
  }

  /** Adding fs into a table of at least |fs| slots fills the first |fs|
      slots in order and leaves the rest as they were. */
  lemma {:induction false} AddFnsFill(t: seq<Slot>, fs: seq<FnId>)
    requires |fs| <= |t|
    ensures AddFns(t, fs).Some?
    ensures |AddFns(t, fs).value| == |t|
    ensures forall i :: 0 <= i < |fs| ==> AddFns(t, fs).value[i] == Some(fs[i])
    ensures forall i :: |fs| <= i < |t| ==> AddFns(t, fs).value[i] == t[i]
  {
    if fs != [] {
      AddFnsFill(t, fs[..|fs| - 1]);
    }
  }

  /** Into a table with fewer slots than functions, some add_fn writes out
      of bounds. */
  lemma {:induction false} AddFnsOverflow(t: seq<Slot>, fs: seq<FnId>)
    requires |fs| > |t|
    ensures AddFns(t, fs).None?
  {
    var init := fs[..|fs| - 1];
    if |init| > |t| {
      AddFnsOverflow(t, init);
    } else {
      AddFnsFill(t, init);
    }
  }

  /** The prologue's effect: init(|fs|) then add_fn for every junk
      function gives a table mapping slot i to fs[i]. */
  lemma FilledTable(fs: seq<FnId>)
    ensures AddFns(TableInit(|fs|), fs) == Some(seq(|fs|, i requires 0 <= i < |fs| => Some(fs[i])))
  {
    AddFnsFill(TableInit(|fs|), fs);
    var t := AddFns(TableInit(|fs|), fs).value;
    assert t == seq(|fs|, i requires 0 <= i < |fs| => Some(fs[i]));
  }

  /** The static __funcs pointer. */
  class Runtime {
    var funcs: array?<Slot>

    constructor ()
      ensures funcs == null
    {
      funcs := null;
    }

    /** __slimer_init(n): a zeroed table of n slots. A negative n makes
        calloc's size wrap to an impossible request, so it returns NULL. */
    method Init(n: int)
      modifies this`funcs
      ensures n >= 0 ==> funcs != null && fresh(funcs) && funcs[..] == TableInit(n)
      ensures n < 0 ==> funcs == null
    {
      if n < 0 {
        funcs := null;
      } else {
        funcs := new Slot[n](_ => None);
      }
    }

    /** __slimer_add_fn(fn, index): slot index becomes fn, no other slot
        changes. C does not check the index; here it must be in range. */
    method AddFn(fn: Slot, index: int)
      requires funcs != null && 0 <= index < funcs.Length
      modifies funcs
      ensures funcs[..] == old(funcs[..])[index := fn]
    {
      funcs[index] := fn;
    }

    /** __slimer_get_funcs: the current table, nothing modified. */
    method GetFuncs() returns (r: array?<Slot>)
      ensures r == funcs
    {
      r := funcs;
    }

    /** The runtime calls of the corrected prologue, in order: init with
        the number of junk functions, then add_fn(&fs[i], i) for every i.
        The prologue as built passes init no argument; see
        Slimer.InitAsWrittenLosesSize. */
    method Fill(fs: seq<FnId>)
      modifies this`funcs
      ensures funcs != null && fresh(funcs)
      ensures AddFns(TableInit(|fs|), fs) == Some(funcs[..])
      ensures funcs.Length == |fs| && forall i :: 0 <= i < |fs| ==> funcs[i] == Some(fs[i])
    {
      Init(|fs|);
      for i := 0 to |fs|
        invariant funcs != null && fresh(funcs) && funcs.Length == |fs|
        invariant AddFns(TableInit(|fs|), fs[..i]) == Some(funcs[..])
      {
        assert fs[..i + 1][..i] == fs[..i];
        AddFn(Some(fs[i]), i);
      }
      assert fs[..|fs|] == fs;
      AddFnsFill(TableInit(|fs|), fs);
    }
  }
}

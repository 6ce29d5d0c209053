/** The `-fplugin-arg-<plugin>-<key>=<value>` options each plugin scans in its
    initialisation routine. Values arrive already converted by atoi. */
module Options {
  import opened IR

  datatype PluginArg = PluginArg(key: string, value: int)

  /** strncmp(a, b, n) == 0 on NUL-terminated strings (taken to hold no
      embedded NUL): the first n characters agree, and a string that ends
      early agrees only with one that ends at the same place. */
  function StrnEq(a: string, b: string, n: nat): bool {
    if n == 0 then true
    else if a == [] || b == [] then a == b
    else a[0] == b[0] && StrnEq(a[1..], b[1..], n - 1)
  }

  /** Against an option name at least n characters long, strncmp matches
      exactly the keys that start with the name's first n characters. */
  lemma {:induction false} StrnEqPrefix(name: string, key: string, n: nat)
    requires n <= |name|
    ensures StrnEq(name, key, n) <==> n <= |key| && key[..n] == name[..n]
  {
    if n > 0 && key != [] {
      StrnEqPrefix(name[1..], key[1..], n - 1);
      if n <= |key| {
        assert key[..n] == [key[0]] + key[1..][..n - 1];
        assert name[..n] == [name[0]] + name[1..][..n - 1];
      }
    }
  }

  /** The value of the last argument whose key matches `name` on its first
      n characters: the loops in the plugins overwrite on every match. */
  function LastValue(args: seq<PluginArg>, name: string, n: nat): Option<int> {
    if args == [] then None
    else if StrnEq(name, args[|args| - 1].key, n) then Some(args[|args| - 1].value)
    else LastValue(args[..|args| - 1], name, n)
  }

  /** LastValue finds the value of the last matching argument, and finds
      nothing exactly when no argument matches. */
  lemma {:induction false} LastValueIsLastMatch(args: seq<PluginArg>, name: string, n: nat)
    ensures LastValue(args, name, n).None? <==> forall k :: 0 <= k < |args| ==> !StrnEq(name, args[k].key, n)
    ensures LastValue(args, name, n).Some? ==>
      exists k :: 0 <= k < |args| && StrnEq(name, args[k].key, n) && args[k].value == LastValue(args, name, n).value
        && forall m :: k < m < |args| ==> !StrnEq(name, args[m].key, n)
  {
    if args != [] {
      var init := args[..|args| - 1];
      LastValueIsLastMatch(init, name, n);
      if !StrnEq(name, args[|args| - 1].key, n) && LastValue(init, name, n).Some? {
        var k :| 0 <= k < |init| && StrnEq(name, init[k].key, n) && init[k].value == LastValue(init, name, n).value
          && forall m :: k < m < |init| ==> !StrnEq(name, init[m].key, n);
        assert args[k] == init[k];
      }
    }
  }

  /** The option loop of a plugin_init: for every argument whose key matches,
      overwrite the variable (which starts at 0). */
  method ScanOption(args: seq<PluginArg>, name: string, n: nat) returns (v: int)
    ensures v == LastValue(args, name, n).GetOr(0)
  {
    v := 0;
    for i := 0 to |args|
      invariant v == LastValue(args[..i], name, n).GetOr(0)
    {
      assert args[..i + 1][..i] == args[..i];
      if StrnEq(name, args[i].key, n) {
        v := args[i].value;
      }
    }
    assert args[..|args|] == args;
  }
}

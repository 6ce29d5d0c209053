/** The names the junk-function builders print with "__func%u" / "__func%d". */
module Names {

  function Digit(d: nat): char
    requires d < 10
  {
    (('0' as int) + d) as char
  }

  /** Decimal representation without leading zeros, as printf's %u gives it. */
  function NatToString(n: nat): (s: string)
    ensures |s| >= 1
    ensures |s| == 1 <==> n < 10
  {
    if n < 10 then [Digit(n)] else NatToString(n / 10) + [Digit(n % 10)]
  }

  /** Different numbers print differently. */
  lemma {:induction false} NatToStringInjective(a: nat, b: nat)
    requires NatToString(a) == NatToString(b)
    ensures a == b
  {
    if a >= 10 && b >= 10 {
      var sa, sb := NatToString(a), NatToString(b);
      assert sa[|sa| - 1] == Digit(a % 10) && sb[|sb| - 1] == Digit(b % 10);
      assert sa[..|sa| - 1] == NatToString(a / 10);
      assert sb[..|sb| - 1] == NatToString(b / 10);
      NatToStringInjective(a / 10, b / 10);
    }
  }

  function FuncName(id: nat): string {
    "__func" + NatToString(id)
  }

  /** Junk functions with different ids get different names. */
  lemma FuncNameInjective(a: nat, b: nat)
    ensures FuncName(a) == FuncName(b) <==> a == b
  {
    if FuncName(a) == FuncName(b) {
      assert NatToString(a) == FuncName(a)[6..];
      assert NatToString(b) == FuncName(b)[6..];
      NatToStringInjective(a, b);
    }
  }
}

/**
 Rows of `active` class flags on index-addressed elements (slides, dots,
 accordion items, filter buttons), and how many of them are set.
 */
module Flags {

  /** Element j is flagged iff j == k; no element is when k is out of range. */
  function Indicator(n: nat, k: int): (r: seq<bool>)
    ensures |r| == n
    ensures forall j :: 0 <= j < n ==> (r[j] <==> j == k)
  {
    seq(n, j => j == k)
  }

  function AllOff(n: nat): (r: seq<bool>)
    ensures |r| == n
    ensures forall j :: 0 <= j < n ==> !r[j]
  {
    seq(n, _ => false)
  }

  function CountTrue(s: seq<bool>): nat {
    if s == [] then 0 else (if s[0] then 1 else 0) + CountTrue(s[1..])
  }

  /** An indicator sets exactly one flag when its position is in range and none otherwise. */
  lemma {:induction false} CountIndicator(n: nat, k: int)
    ensures CountTrue(Indicator(n, k)) == if 0 <= k < n then 1 else 0
  {
    if n > 0 {
      assert Indicator(n, k)[1..] == Indicator(n - 1, k - 1);
      CountIndicator(n - 1, k - 1);
    }
  }

  lemma {:induction false} CountAllOff(n: nat)
    ensures CountTrue(AllOff(n)) == 0
  {
    if n > 0 {
      assert AllOff(n)[1..] == AllOff(n - 1);
      CountAllOff(n - 1);
    }
  }
}

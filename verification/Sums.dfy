/** A weight for each thread, summed over the threads. */
module Sums {

  function Sum<Pc>(pcs: seq<Pc>, w: Pc -> nat): nat {
    if pcs == [] then 0 else w(pcs[0]) + Sum(pcs[1..], w)
  }

  lemma {:induction false} SumUpdate<Pc>(pcs: seq<Pc>, t: nat, pc: Pc, w: Pc -> nat)
    requires t < |pcs|
    ensures Sum(pcs[t := pc], w) == Sum(pcs, w) - w(pcs[t]) + w(pc)
    ensures Sum(pcs, w) >= w(pcs[t])
  {
    if t == 0 {
      assert pcs[t := pc][1..] == pcs[1..];
    } else {
      SumUpdate(pcs[1..], t - 1, pc, w);
      assert pcs[t := pc][1..] == pcs[1..][t - 1 := pc];
    }
  }

  lemma {:induction false} SumBound<Pc>(pcs: seq<Pc>, w: Pc -> nat, b: nat)
    requires forall t | 0 <= t < |pcs| :: w(pcs[t]) <= b
    ensures Sum(pcs, w) <= b * |pcs|
  {
    if pcs != [] {
      SumBound(pcs[1..], w, b);
    }
  }

  lemma {:induction false} SumSame<Pc>(pcs: seq<Pc>, v: Pc -> nat, w: Pc -> nat)
    requires forall t | 0 <= t < |pcs| :: v(pcs[t]) == w(pcs[t])
    ensures Sum(pcs, v) == Sum(pcs, w)
  {
    if pcs != [] {
      SumSame(pcs[1..], v, w);
    }
  }

  lemma {:induction false} SumConstant<Pc>(pcs: seq<Pc>, w: Pc -> nat, b: nat)
    requires forall t | 0 <= t < |pcs| :: w(pcs[t]) == b
    ensures Sum(pcs, w) == b * |pcs|
  {
    if pcs != [] {
      SumConstant(pcs[1..], w, b);
    }
  }

  /** The weight of a number, for sums of numbers. */
  function Self(n: nat): nat {
    n
  }

  /** Any total that the bounds allow can be split up within the bounds. */
  lemma {:induction false} SplitUp(bounds: seq<nat>, total: nat) returns (parts: seq<nat>)
    requires total <= Sum(bounds, Self)
    ensures |parts| == |bounds| && Sum(parts, Self) == total
    ensures forall t | 0 <= t < |bounds| :: parts[t] <= bounds[t]
  {
    if bounds == [] {
      parts := [];
    } else {
      var first := if total < bounds[0] then total else bounds[0];
      var rest := SplitUp(bounds[1..], total - first);
      parts := [first] + rest;
      assert parts[1..] == rest;
      forall t | 0 <= t < |bounds| ensures parts[t] <= bounds[t] {
        if t > 0 {
          assert parts[t] == rest[t - 1] && bounds[1..][t - 1] == bounds[t];
        }
      }
    }
  }
}

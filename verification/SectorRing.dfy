// The sectors of a flash as a ring, and what is left of a sequence when only its end is kept; shared by the two logs.
module SectorRing {

  /** The j-th sector counted from the tail, and back. */
  function Ring(t: nat, j: nat, s: nat): nat { if t + j >= s then t + j - s else t + j }

  function Rel(t: nat, sector: nat, s: nat): nat
    requires t < s
  {
    if sector >= t then sector - t else sector + s - t
  }

  lemma {:induction false} NextInRing(x: nat, n: nat)
    requires x < n
    ensures (x + 1) % n == Ring(x, 1, n)
  {
  }

  predicate IsSuffix<T(==)>(a: seq<T>, b: seq<T>) { |a| <= |b| && a == b[|b| - |a|..] }

  function Flatten<T>(ss: seq<seq<T>>): seq<T> {
    if ss == [] then [] else ss[0] + Flatten(ss[1..])
  }
}

/** How many of a list of truth values hold. */
module Quantifiers {
  function Hits(bits: seq<bool>): nat {
    if bits == [] then 0 else (if bits[0] then 1 else 0) + Hits(bits[1..])
  }

  lemma {:induction false} HitsAre(bits: seq<bool>)
    ensures Hits(bits) <= |bits|
    ensures Hits(bits) == 0 <==> forall i | 0 <= i < |bits| :: !bits[i]
    ensures Hits(bits) == |bits| <==> forall i | 0 <= i < |bits| :: bits[i]
  {
    if bits != [] {
      HitsAre(bits[1..]);
      assert forall i | 0 < i < |bits| :: bits[i] == bits[1..][i - 1];
    }
  }
}

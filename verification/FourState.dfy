/** Four-state values: the bits and vectors that `verinum` carries. */
module FourState {

  datatype V = V0 | V1 | Vx | Vz

  /** A vector, least significant bit first. */
  type Vec = seq<V>

  function Fill(v: V, width: nat): (r: Vec)
    ensures |r| == width && forall i | 0 <= i < width :: r[i] == v
  {
    seq(width, _ => v)
  }

  /** Bit b of what a driver puts on a nexus: nothing, that is z, past its end. */
  function BitAt(v: Vec, b: nat): V {
    if b < |v| then v[b] else Vz
  }

  /** The vector `whole` with the bits from `base` on replaced by `part`. */
  function Overlay(whole: Vec, base: nat, part: Vec): (r: Vec)
    requires base + |part| <= |whole|
    ensures |r| == |whole|
    ensures forall i | 0 <= i < |whole| ::
              r[i] == if base <= i < base + |part| then part[i - base] else whole[i]
  {
    whole[..base] + part + whole[base + |part|..]
  }

  predicate IsDefined(v: Vec) {
    forall i | 0 <= i < |v| :: v[i] == V0 || v[i] == V1
  }

  /** A constant: its bits, whether it has a definite length and a sign, and whether it is a
      single bit that stands for every bit. */
  datatype Verinum = Verinum(bits: Vec, hasLen: bool, hasSign: bool, single: bool)
}

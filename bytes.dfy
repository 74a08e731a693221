/**
 * Bytes as the storage engine hands them out, and the little-endian reading
 * of fixed-width integer columns.
 */
module Bytes {

  newtype byte = x: int | 0 <= x < 256

  /** 256 to the power w: the number of distinct values of a w-byte field. */
  function Pow256(w: nat): (p: nat)
    ensures p >= 1
  {
    if w == 0 then 1 else 256 * Pow256(w - 1)
  }

  /** The unsigned value of bs read least significant byte first. */
  function Unsigned(bs: seq<byte>): (v: nat)
    ensures v < Pow256(|bs|)
  {
    if |bs| == 0 then 0 else bs[0] as nat + 256 * Unsigned(bs[1..])
  }

  /** Half the values of a w-byte field: the first negative two's-complement value, negated. */
  function Half(w: nat): (h: nat)
    requires w > 0
    ensures Pow256(w) == 2 * h
  {
    128 * Pow256(w - 1)
  }

  /** The two's-complement value of bs read least significant byte first. */
  function Signed(bs: seq<byte>): (v: int)
    requires |bs| > 0
    ensures -(Half(|bs|) as int) <= v < Half(|bs|)
    ensures v >= 0 <==> Unsigned(bs) < Half(|bs|)
  {
    var u := Unsigned(bs);
    if u < Half(|bs|) then u else u - Pow256(|bs|)
  }

  /** The w little-endian bytes that store the unsigned value v. */
  function Encode(v: nat, w: nat): (bs: seq<byte>)
    requires v < Pow256(w)
    ensures |bs| == w
  {
    if w == 0 then [] else [(v % 256) as byte] + Encode(v / 256, w - 1)
  }

  /** The w little-endian bytes that store the signed value v in two's complement. */
  function EncodeSigned(v: int, w: nat): (bs: seq<byte>)
    requires w > 0 && -(Half(w) as int) <= v < Half(w)
    ensures |bs| == w
  {
    Encode(if v < 0 then v + Pow256(w) else v, w)
  }

  /** Reading back what Encode wrote gives the value again. */
  lemma {:induction false} UnsignedEncode(v: nat, w: nat)
    requires v < Pow256(w)
    ensures Unsigned(Encode(v, w)) == v
  {
    if w > 0 {
      var bs := Encode(v, w);
      assert bs[1..] == Encode(v / 256, w - 1);
      UnsignedEncode(v / 256, w - 1);
    }
  }

  /** Encoding what was read gives the bytes again: the reading is a bijection. */
  lemma {:induction false} EncodeUnsigned(bs: seq<byte>)
    ensures Encode(Unsigned(bs), |bs|) == bs
  {
    if |bs| > 0 {
      EncodeUnsigned(bs[1..]);
    }
  }

  /** The signed reading inverts the two's-complement encoding. */
  lemma SignedEncode(v: int, w: nat)
    requires w > 0 && -(Half(w) as int) <= v < Half(w)
    ensures Signed(EncodeSigned(v, w)) == v
  {
    UnsignedEncode(if v < 0 then v + Pow256(w) else v, w);
  }

  /** Encoding the signed reading gives the bytes again. */
  lemma EncodeSignedOf(bs: seq<byte>)
    requires |bs| > 0
    ensures EncodeSigned(Signed(bs), |bs|) == bs
  {
    EncodeUnsigned(bs);
  }
}

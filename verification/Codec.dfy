/**
 * The obfuscation codec (`XOR` in Util.js): every byte of a buffer is XORed
 * with the single configured key byte.
 */
module Codec {

  type Byte = bv8

  /** The codec as a specification: the key applied to each byte, front to back. */
  function Xor(key: Byte, data: seq<Byte>): seq<Byte>
  {
    if data == [] then [] else [key ^ data[0]] + Xor(key, data[1..])
  }

  /** The codec keeps the length and transforms each byte on its own. */
  lemma {:induction false} XorAt(key: Byte, data: seq<Byte>)
    ensures |Xor(key, data)| == |data|
    ensures forall i :: 0 <= i < |data| ==> Xor(key, data)[i] == key ^ data[i]
  {
    if data != [] {
      XorAt(key, data[1..]);
      forall i | 1 <= i < |data|
        ensures Xor(key, data)[i] == key ^ data[i]
      {
        assert Xor(key, data)[i] == Xor(key, data[1..])[i - 1];
      }
    }
  }

  /** The codec is an involution: obfuscating twice gives the original bytes back. */
  lemma {:induction false} XorInvolution(key: Byte, data: seq<Byte>)
    ensures Xor(key, Xor(key, data)) == data
  {
    if data != [] {
      XorInvolution(key, data[1..]);
      assert key ^ (key ^ data[0]) == data[0];
    }
  }

  /** Obfuscating is injective: different buffers never collide. */
  lemma XorInjective(key: Byte, a: seq<Byte>, b: seq<Byte>)
    requires Xor(key, a) == Xor(key, b)
    ensures a == b
  {
    XorInvolution(key, a);
    XorInvolution(key, b);
  }

  /**
   * The loop of `XOR`: push `key ^ byte` for each byte of the buffer, in order.
   */
  method XorBuffer(key: Byte, buffer: seq<Byte>) returns (out: seq<Byte>)
    ensures |out| == |buffer|
    ensures forall i :: 0 <= i < |buffer| ==> out[i] == key ^ buffer[i]
    ensures out == Xor(key, buffer)
  {
    out := [];
    var index := 0;
    while index < |buffer|
      invariant 0 <= index <= |buffer|
      invariant |out| == index
      invariant forall i :: 0 <= i < index ==> out[i] == key ^ buffer[i]
    {
      out := out + [key ^ buffer[index]];
      index := index + 1;
    }
    XorAt(key, buffer);
  }
}

/**
 * Fixed-width integers and their little-endian byte layout, as bincode 1.x
 * writes them with its default fixed-int encoding; also the bitwise
 * operations the frame header's parity is computed with.
 */
module Bytes {
  type Byte = b: int | 0 <= b < 0x100
  type U16 = x: int | 0 <= x < 0x1_0000
  type U32 = x: int | 0 <= x < 0x1_0000_0000
  type U64 = x: int | 0 <= x < 0x1_0000_0000_0000_0000
  type I32 = x: int | -0x8000_0000 <= x < 0x8000_0000

  function Pow256(n: nat): (r: nat)
    ensures r > 0
  {
    if n == 0 then 1 else 256 * Pow256(n - 1)
  }

  function Pow2(n: nat): (r: nat)
    ensures r > 0
  {
    if n == 0 then 1 else 2 * Pow2(n - 1)
  }

  /** The `width` least significant bytes of `x`, least significant first. */
  function EncodeLE(x: nat, width: nat): (r: seq<Byte>)
    requires x < Pow256(width)
    ensures |r| == width
  {
    if width == 0 then [] else [x % 256] + EncodeLE(x / 256, width - 1)
  }

  /** The number whose little-endian bytes are `s`. */
  function DecodeLE(s: seq<Byte>): (r: nat)
    ensures r < Pow256(|s|)
  {
    if s == [] then 0 else s[0] + 256 * DecodeLE(s[1..])
  }

  lemma {:induction false} DecodeEncodeLE(x: nat, width: nat)
    requires x < Pow256(width)
    ensures DecodeLE(EncodeLE(x, width)) == x
  {
    if width > 0 {
      var s := EncodeLE(x, width);
      assert s[1..] == EncodeLE(x / 256, width - 1);
      DecodeEncodeLE(x / 256, width - 1);
    }
  }

  /** A 4-byte little-endian word (`u32` and, as a bit pattern, `i32`). */
  function LE32(x: U32): (r: seq<Byte>)
    ensures |r| == 4
  {
    EncodeLE(x, 4)
  }

  /** An 8-byte little-endian word (`u64`, bincode's length prefix of a `Vec`). */
  function LE64(x: U64): (r: seq<Byte>)
    ensures |r| == 8
  {
    EncodeLE(x, 8)
  }

  /** The `u32` stored little-endian at offset `i` of `s`. */
  function U32At(s: seq<Byte>, i: nat): (r: U32)
    requires i + 4 <= |s|
  {
    (s[i] as int) + 0x100 * (s[i + 1] as int) + 0x1_0000 * (s[i + 2] as int) + 0x100_0000 * (s[i + 3] as int)
  }

  /** Reading a word at an offset is decoding the four bytes found there. */
  lemma U32AtIsDecodeLE(s: seq<Byte>, i: nat)
    requires i + 4 <= |s|
    ensures U32At(s, i) == DecodeLE(s[i..i + 4])
  {
    var t := s[i..i + 4];
    assert DecodeLE(t[3..]) == t[3] by {
      assert t[3..][1..] == [];
    }
    assert DecodeLE(t[2..]) == t[2] + 256 * DecodeLE(t[3..]) by {
      assert t[2..][1..] == t[3..];
    }
    assert DecodeLE(t[1..]) == t[1] + 256 * DecodeLE(t[2..]) by {
      assert t[1..][1..] == t[2..];
    }
  }

  /** Words written one after the other, each as four little-endian bytes. */
  function EncodeWords(ws: seq<U32>): (r: seq<Byte>)
    ensures |r| == 4 * |ws|
  {
    if ws == [] then [] else LE32(ws[0]) + EncodeWords(ws[1..])
  }

  lemma {:induction false} EncodeWordsAppend(a: seq<U32>, b: seq<U32>)
    ensures EncodeWords(a + b) == EncodeWords(a) + EncodeWords(b)
  {
    if a != [] {
      assert (a + b)[1..] == a[1..] + b;
      EncodeWordsAppend(a[1..], b);
    } else {
      assert a + b == b;
    }
  }

  /** Four words encode as their four little-endian groups, in order. */
  lemma EncodeFourWords(a: U32, b: U32, c: U32, d: U32)
    ensures EncodeWords([a, b, c, d]) == LE32(a) + LE32(b) + LE32(c) + LE32(d)
  {
    assert [a, b, c, d][1..] == [b, c, d];
    assert [b, c, d][1..] == [c, d];
    assert [c, d][1..] == [d];
    assert [d][1..] == [];
    assert EncodeWords([d]) == LE32(d);
    assert EncodeWords([c, d]) == LE32(c) + LE32(d);
    assert EncodeWords([b, c, d]) == LE32(b) + (LE32(c) + LE32(d));
  }

  /** The `k`-th word of an encoding reads back, from offset `4 * k`, as the word that was written there. */
  lemma {:induction false} WordAt(ws: seq<U32>, rest: seq<Byte>, k: nat)
    requires k < |ws|
    ensures 4 * k + 4 <= |EncodeWords(ws) + rest|
    ensures U32At(EncodeWords(ws) + rest, 4 * k) == ws[k]
  {
    var s := EncodeWords(ws) + rest;
    var tail := EncodeWords(ws[1..]) + rest;
    assert s == LE32(ws[0]) + tail;
    if k == 0 {
      assert s[0..4] == LE32(ws[0]);
      DecodeEncodeLE(ws[0], 4);
      U32AtIsDecodeLE(s, 0);
    } else {
      WordAt(ws[1..], rest, k - 1);
      assert s[4 * k..4 * k + 4] == tail[4 * (k - 1)..4 * (k - 1) + 4];
    }
  }

  /** Rust's `i as u32` for an `i32`: the same 32-bit pattern read unsigned. */
  function AsU32(i: I32): (u: U32)
    ensures (u - i) % 0x1_0000_0000 == 0
  {
    if i < 0 then i + 0x1_0000_0000 else i
  }

  /** Rust's `u as i32` for a `u32`: the same 32-bit pattern read as two's complement. */
  function AsI32(u: U32): (i: I32)
    ensures (u - i) % 0x1_0000_0000 == 0
    ensures AsU32(i) == u
  {
    if u < 0x8000_0000 then u else u - 0x1_0000_0000
  }

  lemma ReinterpretI32(i: I32)
    ensures AsI32(AsU32(i)) == i
  {
  }

  /** Bitwise exclusive or of the `width` low bits of `a` and `b`. */
  function Xor(a: nat, b: nat, width: nat): (r: nat)
    ensures r < Pow2(width)
  {
    if width == 0 then 0
    else (if a % 2 == b % 2 then 0 else 1) + 2 * Xor(a / 2, b / 2, width - 1)
  }

  /** Bitwise and of the `width` low bits of `a` and `b`. */
  function And(a: nat, b: nat, width: nat): (r: nat)
    ensures r < Pow2(width)
  {
    if width == 0 then 0
    else (if a % 2 == 1 && b % 2 == 1 then 1 else 0) + 2 * And(a / 2, b / 2, width - 1)
  }

  /** Exclusive or with all ones flips every bit: it is the complement. */
  lemma {:induction false} XorAllOnes(a: nat, width: nat)
    requires a < Pow2(width)
    ensures Xor(a, Pow2(width) - 1, width) == Pow2(width) - 1 - a
  {
    if width > 0 {
      XorAllOnes(a / 2, width - 1);
    }
  }

  /** And with all ones keeps every bit of a value that fits the width. */
  lemma {:induction false} AndAllOnes(a: nat, width: nat)
    requires a < Pow2(width)
    ensures And(a, Pow2(width) - 1, width) == a
  {
    if width > 0 {
      AndAllOnes(a / 2, width - 1);
    }
  }

  /** A value and its complement differ in every bit. */
  lemma {:induction false} XorComplement(a: nat, width: nat)
    requires a < Pow2(width)
    ensures Xor(a, Pow2(width) - 1 - a, width) == Pow2(width) - 1
  {
    if width > 0 {
      var c := Pow2(width) - 1 - a;
      assert c % 2 != a % 2;
      assert c / 2 == Pow2(width - 1) - 1 - a / 2;
      XorComplement(a / 2, width - 1);
    }
  }

  lemma {:induction false} Pow2Add(a: nat, b: nat)
    ensures Pow2(a + b) == Pow2(a) * Pow2(b)
  {
    if a > 0 {
      Pow2Add(a - 1, b);
    }
  }

  lemma Pow2Of32()
    ensures Pow2(32) == 0x1_0000_0000
  {
    assert Pow2(8) == 0x100;
    Pow2Add(8, 8);
    Pow2Add(16, 16);
  }

  lemma Pow256Of4And8()
    ensures Pow256(4) == 0x1_0000_0000
    ensures Pow256(8) == 0x1_0000_0000_0000_0000
  {
  }
}

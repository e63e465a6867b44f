/**
 Byte order. The host is little-endian, the wire is big-endian. An integer variable is stored in memory
 as `Little` of its value; `Big` is what the protocol promises to put on the wire.
 */
module Endian {
  import opened MachineInts

  function Pow256(n: nat): (p: nat)
    ensures p > 0
  {
    if n == 0 then 1 else 256 * Pow256(n - 1)
  }

  function Big(v: nat, n: nat): (s: seq<byte>)
    ensures |s| == n
  {
    if n == 0 then [] else Big(v / 256, n - 1) + [v % 256]
  }

  function Little(v: nat, n: nat): (s: seq<byte>)
    ensures |s| == n
  {
    if n == 0 then [] else [v % 256] + Little(v / 256, n - 1)
  }

  function FromBig(s: seq<byte>): nat {
    if s == [] then 0 else FromBig(s[..|s| - 1]) * 256 + s[|s| - 1]
  }

  function FromLittle(s: seq<byte>): nat {
    if s == [] then 0 else s[0] + 256 * FromLittle(s[1..])
  }

  lemma {:induction false} FromBigOfBig(v: nat, n: nat)
    requires v < Pow256(n)
    ensures FromBig(Big(v, n)) == v
  {
    if n > 0 {
      FromBigOfBig(v / 256, n - 1);
      assert Big(v, n)[..n - 1] == Big(v / 256, n - 1);
    }
  }

  lemma {:induction false} BigOfFromBig(s: seq<byte>)
    ensures FromBig(s) < Pow256(|s|)
    ensures Big(FromBig(s), |s|) == s
  {
    if s != [] {
      BigOfFromBig(s[..|s| - 1]);
      assert s == s[..|s| - 1] + [s[|s| - 1]];
    }
  }

  lemma {:induction false} FromLittleOfLittle(v: nat, n: nat)
    requires v < Pow256(n)
    ensures FromLittle(Little(v, n)) == v
  {
    if n > 0 {
      FromLittleOfLittle(v / 256, n - 1);
      assert Little(v, n)[1..] == Little(v / 256, n - 1);
    }
  }

  lemma {:induction false} LittleOfFromLittle(s: seq<byte>)
    ensures FromLittle(s) < Pow256(|s|)
    ensures Little(FromLittle(s), |s|) == s
  {
    if s != [] {
      LittleOfFromLittle(s[1..]);
      assert s == [s[0]] + s[1..];
    }
  }

  lemma DropLowByte(hi: nat, lo: nat, n: nat)
    requires n > 0
    ensures (hi * Pow256(n) + lo) / 256 == hi * Pow256(n - 1) + lo / 256
    ensures (hi * Pow256(n) + lo) % 256 == lo % 256
  {
    var q := hi * Pow256(n - 1);
    assert hi * Pow256(n) == 256 * q;
    assert (256 * q + lo) / 256 == q + lo / 256;
  }

  /** A wide value splits into its high and its low part, most significant first. */
  lemma {:induction false} BigSplit(hi: nat, lo: nat, m: nat, n: nat)
    requires lo < Pow256(n)
    ensures Big(hi * Pow256(n) + lo, m + n) == Big(hi, m) + Big(lo, n)
  {
    if n > 0 {
      DropLowByte(hi, lo, n);
      BigSplit(hi, lo / 256, m, n - 1);
    }
  }

  /** A wide value splits into its low and its high part, least significant first. */
  lemma {:induction false} LittleSplit(hi: nat, lo: nat, m: nat, n: nat)
    requires lo < Pow256(n)
    ensures Little(hi * Pow256(n) + lo, n + m) == Little(lo, n) + Little(hi, m)
  {
    if n > 0 {
      DropLowByte(hi, lo, n);
      LittleSplit(hi, lo / 256, m, n - 1);
    }
  }

  lemma Powers()
    ensures Pow256(2) == 0x1_0000 && Pow256(4) == 0x1_0000_0000
    ensures Pow256(8) == 0x1_0000_0000_0000_0000
  {
    assert Pow256(2) == 256 * Pow256(1);
    assert Pow256(3) == 256 * Pow256(2);
    assert Pow256(4) == 256 * Pow256(3);
    assert Pow256(5) == 256 * Pow256(4);
    assert Pow256(6) == 256 * Pow256(5);
    assert Pow256(7) == 256 * Pow256(6);
    assert Pow256(8) == 256 * Pow256(7);
  }

  /** `htons` and `htonl` on a little-endian host: the value whose memory image is the big-endian one. */
  function Htons(v: uint16): (r: uint16)
    ensures Little(r, 2) == Big(v, 2)
  {
    LittleOfFromLittle(Big(v, 2));
    Powers();
    FromLittle(Big(v, 2))
  }

  function Htonl(v: uint32): (r: uint32)
    ensures Little(r, 4) == Big(v, 4)
  {
    LittleOfFromLittle(Big(v, 4));
    Powers();
    FromLittle(Big(v, 4))
  }

  /** `local_htonll`: the 64-bit swap put together from two 32-bit ones, halves exchanged. */
  function Htonll(v: uint64): uint64 {
    Htonl(v % TWO32) * TWO32 + Htonl(v / TWO32)
  }

  /** The halves-exchanged pair of 32-bit swaps is the 64-bit swap. */
  lemma HtonllIsBigEndian(v: uint64)
    ensures Little(Htonll(v), 8) == Big(v, 8)
  {
    var hi: uint32, lo: uint32 := v / TWO32, v % TWO32;
    Powers();
    assert v == hi * Pow256(4) + lo;
    LittleSplit(Htonl(lo), Htonl(hi), 4, 4);
    BigSplit(hi, lo, 4, 4);
  }

  /** Reading 16-bit, 32-bit and 64-bit fields back: swapping what memory holds yields the big-endian value. */
  lemma NtohsReadsBig(s: seq<byte>)
    requires |s| == 2
    ensures FromLittle(s) < 0x1_0000 && FromBig(s) < 0x1_0000
    ensures Htons(FromLittle(s)) == FromBig(s)
  {
    Powers();
    LittleOfFromLittle(s);
    BigOfFromBig(s);
    SwapReadsBig(s, Htons(FromLittle(s)));
  }

  lemma NtohlReadsBig(s: seq<byte>)
    requires |s| == 4
    ensures FromLittle(s) < TWO32 && FromBig(s) < TWO32
    ensures Htonl(FromLittle(s)) == FromBig(s)
  {
    Powers();
    LittleOfFromLittle(s);
    BigOfFromBig(s);
    SwapReadsBig(s, Htonl(FromLittle(s)));
  }

  lemma NtohllReadsBig(s: seq<byte>)
    requires |s| == 8
    ensures FromLittle(s) < TWO64 && FromBig(s) < TWO64
    ensures Htonll(FromLittle(s)) == FromBig(s)
  {
    Powers();
    LittleOfFromLittle(s);
    BigOfFromBig(s);
    HtonllIsBigEndian(FromLittle(s));
    SwapReadsBig(s, Htonll(FromLittle(s)));
  }

  /** If the memory image of `r` is the big-endian form of what `s` holds, then `r` is `s` read big-endian. */
  lemma SwapReadsBig(s: seq<byte>, r: nat)
    requires r < Pow256(|s|)
    requires Little(r, |s|) == Big(FromLittle(s), |s|)
    ensures r == FromBig(s)
  {
    LittleOfFromLittle(s);
    BigReversesLittle(FromLittle(s), |s|);
    BigReversesLittle(r, |s|);
    ReverseReverse(Big(r, |s|));
    FromBigOfBig(r, |s|);
  }

  function Reverse(s: seq<byte>): (r: seq<byte>)
    ensures |r| == |s|
    ensures forall i :: 0 <= i < |s| ==> r[i] == s[|s| - 1 - i]
  {
    seq(|s|, i requires 0 <= i < |s| => s[|s| - 1 - i])
  }

  lemma ReverseReverse(s: seq<byte>)
    ensures Reverse(Reverse(s)) == s
  {
  }

  lemma {:induction false} BigReversesLittle(v: nat, n: nat)
    ensures Little(v, n) == Reverse(Big(v, n))
  {
    if n > 0 {
      BigReversesLittle(v / 256, n - 1);
      assert Big(v, n)[..n - 1] == Big(v / 256, n - 1);
    }
  }

  /** `local_htonll` undoes itself, which is why it also serves as `ntohll`. */
  lemma HtonllInvolution(v: uint64)
    ensures Htonll(Htonll(v)) == v
  {
    Powers();
    HtonllIsBigEndian(v);
    NtohllReadsBig(Big(v, 8));
    FromLittleOfLittle(Htonll(v), 8);
    FromBigOfBig(v, 8);
  }
}

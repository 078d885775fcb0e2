/**
 * Wire-level integers of the NTS-KE record layer: octets, Go's uint16, the
 * bit helpers `setBit`/`hasBit` and Go's `&^` on a single bit, and the
 * big-endian layout that `encoding/binary` gives a uint16.
 *
 * Integers are modelled as bounded subsets of `int`; the bit operations are
 * stated arithmetically (bit i of n is the parity of n / 2^i).
 */
module Wire {

  /** An octet on the wire. */
  type byte = x: int | 0 <= x < 0x100

  /** Go's uint16. */
  type uint16 = x: int | 0 <= x < 0x1_0000

  function Pow2(k: nat): (r: nat)
    ensures r >= 1
  {
    if k == 0 then 1 else 2 * Pow2(k - 1)
  }

  lemma Pow2Values()
    ensures Pow2(8) == 0x100 && Pow2(15) == 0x8000 && Pow2(16) == 0x1_0000
  {
    assert Pow2(1) == 2;
    assert Pow2(2) == 4;
    assert Pow2(3) == 8;
    assert Pow2(4) == 16;
    assert Pow2(5) == 32;
    assert Pow2(6) == 64;
    assert Pow2(7) == 128;
    assert Pow2(8) == 256;
    assert Pow2(9) == 512;
    assert Pow2(10) == 1024;
    assert Pow2(11) == 2048;
    assert Pow2(12) == 4096;
    assert Pow2(13) == 8192;
    assert Pow2(14) == 16384;
    assert Pow2(15) == 32768;
  }

  /** Bit i of n, counting from the least significant bit. */
  function Bit(n: nat, i: nat): bool
  {
    if i == 0 then n % 2 == 1 else Bit(n / 2, i - 1)
  }

  /** The top bit of a w+1-bit number is set exactly when the number is at least 2^w. */
  lemma {:induction false} TopBit(n: nat, w: nat)
    requires n < Pow2(w + 1)
    ensures Bit(n, w) <==> n >= Pow2(w)
  {
    if w > 0 {
      TopBit(n / 2, w - 1);
    }
  }

  /** Adding 2^pos to a number whose bit pos is clear stays below 2^w. */
  lemma {:induction false} AddBitBound(n: nat, pos: nat, w: nat)
    requires n < Pow2(w) && pos < w && !Bit(n, pos)
    ensures n + Pow2(pos) < Pow2(w)
  {
    var half := Pow2(w - 1);
    assert Pow2(w) == 2 * half;
    var m := n / 2;
    assert n == 2 * m + n % 2;
    assert m < half;
    if pos == 0 {
      assert n % 2 == 0;
      assert n + 1 == 2 * m + 1;
    } else {
      var p := Pow2(pos - 1);
      assert Pow2(pos) == 2 * p;
      assert !Bit(m, pos - 1);
      AddBitBound(m, pos - 1, w - 1);
      assert m + p < half;
      assert n + Pow2(pos) == 2 * (m + p) + n % 2;
    }
  }

  /** Adding 2^pos to a number whose bit pos is clear sets no other bit and clears none. */
  lemma {:induction false} AddBitOthers(n: nat, pos: nat, i: nat)
    requires !Bit(n, pos) && i != pos
    ensures Bit(n + Pow2(pos), i) == Bit(n, i)
  {
    if i > 0 && pos > 0 {
      assert (n + Pow2(pos)) / 2 == n / 2 + Pow2(pos - 1);
      AddBitOthers(n / 2, pos - 1, i - 1);
    } else if i > 0 {
      assert (n + 1) / 2 == n / 2;
    }
  }

  /** Adding 2^pos to a number whose bit pos is clear sets that bit. */
  lemma {:induction false} AddBitSets(n: nat, pos: nat)
    requires !Bit(n, pos)
    ensures Bit(n + Pow2(pos), pos)
  {
    if pos > 0 {
      assert (n + Pow2(pos)) / 2 == n / 2 + Pow2(pos - 1);
      AddBitSets(n / 2, pos - 1);
    }
  }

  /** A set bit pos accounts for 2^pos of the number. */
  lemma {:induction false} SetBitWeight(n: nat, pos: nat)
    requires Bit(n, pos)
    ensures n >= Pow2(pos) && !Bit(n - Pow2(pos), pos)
  {
    if pos > 0 {
      SetBitWeight(n / 2, pos - 1);
      assert (n - Pow2(pos)) / 2 == n / 2 - Pow2(pos - 1);
    }
  }

  /** Go's `n & (1 << pos) > 0` on a uint16: a shift by 16 or more leaves no bit to test. */
  function HasBit(n: uint16, pos: nat): bool
  {
    pos < 16 && Bit(n, pos)
  }

  /** Go's `n | (1 << pos)` on a uint16 (setBit); a shift of 16 or more sets nothing. */
  function SetBit(n: uint16, pos: nat): uint16
  {
    if pos >= 16 || Bit(n, pos) then n
    else
      Pow2Values();
      AddBitBound(n, pos, 16);
      n + Pow2(pos)
  }

  /** Go's `n &^ (1 << pos)` on a uint16. */
  function ClearBit(n: uint16, pos: nat): uint16
  {
    if pos < 16 && Bit(n, pos) then
      SetBitWeight(n, pos);
      n - Pow2(pos)
    else n
  }

  /** SetBit sets bit pos (when it is one of the 16) and leaves every other bit as it was. */
  lemma SetBitSpec(n: uint16, pos: nat)
    ensures pos < 16 ==> HasBit(SetBit(n, pos), pos)
    ensures forall i :: i != pos ==> HasBit(SetBit(n, pos), i) == HasBit(n, i)
  {
    if pos < 16 && !Bit(n, pos) {
      AddBitSets(n, pos);
      AddBitOthersAll(n, pos);
    }
  }

  /** ClearBit clears bit pos and leaves every other bit as it was. */
  lemma ClearBitSpec(n: uint16, pos: nat)
    ensures !HasBit(ClearBit(n, pos), pos)
    ensures forall i :: i != pos ==> HasBit(ClearBit(n, pos), i) == HasBit(n, i)
  {
    if pos < 16 && Bit(n, pos) {
      SetBitWeight(n, pos);
      AddBitOthersAll(n - Pow2(pos), pos);
    }
  }

  lemma AddBitOthersAll(n: nat, pos: nat)
    requires !Bit(n, pos)
    ensures forall i :: i != pos ==> Bit(n + Pow2(pos), i) == Bit(n, i)
  {
    forall i | i != pos
      ensures Bit(n + Pow2(pos), i) == Bit(n, i)
    {
      AddBitOthers(n, pos, i);
    }
  }

  /** Bit 15 of a uint16 is set exactly when its value is at least 0x8000. */
  lemma Bit15(n: uint16)
    ensures HasBit(n, 15) <==> n >= 0x8000
  {
    Pow2Values();
    TopBit(n, 15);
  }

  /** Clearing bit 15 of a uint16 leaves its value modulo 2^15. */
  lemma ClearBit15(n: uint16)
    ensures ClearBit(n, 15) == n % 0x8000
  {
    Pow2Values();
    Bit15(n);
  }

  /** A big-endian type word whose value without bit 15 is zero has octets 00 00 or 80 00. */
  lemma EomTypeOctets(hi: byte, lo: byte)
    requires ClearBit(FromBE16(hi, lo), 15) == 0
    ensures (hi == 0x00 || hi == 0x80) && lo == 0x00
  {
    ClearBit15(FromBE16(hi, lo));
    var w: int := hi * 0x100 + lo;
    assert w == 0x8000 * (w / 0x8000);
    assert w / 0x8000 == 0 || w / 0x8000 == 1;
  }

  /** Setting and then clearing bit 15 of a 15-bit type code gives the code back. */
  lemma CriticalBitRoundTrip(t: uint16, c: bool)
    requires t < 0x8000
    ensures var w := if c then SetBit(t, 15) else t;
      HasBit(w, 15) == c && ClearBit(w, 15) == t
  {
    Pow2Values();
    Bit15(t);
    if c {
      Bit15(SetBit(t, 15));
    }
  }

  /** Setting bit 15 of a 15-bit type code adds 0x8000. */
  lemma CriticalTypeWord(t: uint16)
    requires t < 0x8000
    ensures SetBit(t, 15) == t + 0x8000
  {
    Pow2Values();
    Bit15(t);
  }

  /**
   * Go's `uint16(n)` conversion of a non-negative int: the one uint16 that is
   * congruent to n modulo 2^16 (n itself when it fits).
   */
  function Uint16(n: nat): (r: uint16)
    ensures n < 0x1_0000 ==> r == n
    ensures (n - r) % 0x1_0000 == 0
  {
    n % 0x1_0000
  }

  /** `binary.BigEndian` layout of a uint16: high octet first. */
  function BE16(x: uint16): (r: seq<byte>)
    ensures |r| == 2
  {
    [x / 0x100, x % 0x100]
  }

  /** Reading back the two octets of BE16(x) gives x. */
  lemma BE16Inverse(x: uint16)
    ensures FromBE16(BE16(x)[0], BE16(x)[1]) == x
  {
  }

  /** The uint16 that `binary.BigEndian` reads from two octets. */
  function FromBE16(hi: byte, lo: byte): uint16
  {
    hi * 0x100 + lo
  }

  /** Writing back what FromBE16 read gives the same two octets. */
  lemma FromBE16Inverse(hi: byte, lo: byte)
    ensures BE16(FromBE16(hi, lo)) == [hi, lo]
  {
  }

  /** `binary.BigEndian` layout of a []uint16: each element in turn, two octets each. */
  function BE16s(xs: seq<uint16>): (r: seq<byte>)
    ensures |r| == 2 * |xs|
  {
    if xs == [] then [] else BE16(xs[0]) + BE16s(xs[1..])
  }

  lemma {:induction false} BE16sAt(xs: seq<uint16>, i: nat)
    requires i < |xs|
    ensures BE16s(xs)[2 * i .. 2 * i + 2] == BE16(xs[i])
  {
    if i > 0 {
      BE16sAt(xs[1..], i - 1);
      assert BE16s(xs)[2..] == BE16s(xs[1..]);
    }
  }

  /** n zero octets, as in a fresh `make([]byte, n)`. */
  function Zeros(n: nat): (r: seq<byte>)
    ensures |r| == n && forall i :: 0 <= i < n ==> r[i] == 0
  {
    seq(n, _ => 0)
  }

  function Min(a: nat, b: nat): nat
  {
    if a <= b then a else b
  }
}

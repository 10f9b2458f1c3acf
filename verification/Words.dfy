/** Machine words of the wire formats: 8-, 16- and 32-bit values as bounded
    integers, the byte swap of `htons`/`ntohs`, and the marker words. */
module Words {

  type u8 = x: int | 0 <= x < 0x100
  type u16 = x: int | 0 <= x < 0x1_0000
  type word = x: int | 0 <= x < 0x1_0000_0000
  type short = x: int | -0x8000 <= x < 0x8000

  const SYNCWORD: word := 0xFADC_CAFD
  const SYNCWORD_END: word := 0xAFCD_ACDF
  const FILLWORD: word := 0xFFFF_FFFF

  /** `htons` and `ntohs` on a little-endian host. */
  function Swap16(x: u16): (y: u16)
    ensures y % 256 == x / 256 && y / 256 == x % 256
  {
    x % 256 * 256 + x / 256
  }

  lemma SwapsTwo(a: u8, b: u8)
    ensures Swap16(a + b * 0x100) == b + a * 0x100
  {
  }

  /** A word is its low and its high half. */
  lemma Halves(lo: u16, hi: u16)
    ensures (lo + hi * 0x1_0000) % 0x1_0000 == lo
    ensures (lo + hi * 0x1_0000) / 0x1_0000 == hi
  {
  }

  lemma SwapTwice(x: u16)
    ensures Swap16(Swap16(x)) == x
  {
    var y := Swap16(x);
    assert y % 256 * 256 + y / 256 == x;
  }

  /** The word of four bytes, the first in memory first. */
  function FromBytes(a: u8, b: u8, c: u8, d: u8): word {
    a + b * 0x100 + c * 0x1_0000 + d * 0x100_0000
  }

  /** The conversion of an unsigned 16-bit value to `short`. */
  function ToShort(x: u16): short {
    if x < 0x8000 then x else x - 0x1_0000
  }

  /** The conversion of a `short` to an unsigned 16-bit value. */
  function FromShort(x: short): u16 {
    x % 0x1_0000
  }

  lemma ShortTwice(x: short)
    ensures ToShort(FromShort(x)) == x
  {
    assert FromShort(x) == if x < 0 then x + 0x1_0000 else x;
  }

  /** The `n` words that `memset(p, 0xFF, 4 * n)` writes. */
  function Fill(n: nat): (ws: seq<word>)
    ensures |ws| == n
  {
    seq(n, _ => FILLWORD)
  }

  /** Two numbers with the same index byte. */
  predicate SameIndex(x: nat, y: nat) { x % 256 == y % 256 }

  lemma NearAreSame(x: nat, y: nat)
    requires -256 < x - y < 256
    ensures SameIndex(x, y) <==> x == y
  {
  }
}

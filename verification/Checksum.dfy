/** The Internet checksum of RFC 1071 and its incremental update by csum_replace2. */
module Checksum {
  import opened Bits

  const MOD: nat := 0xFFFF

  type Word = x: nat | x < 0x1_0000

  /** `~x` on 16 bits. */
  function Not(x: Word): Word { 0xFFFF - x }

  /** One's complement addition: the carry out of bit 15 comes back in at bit 0. */
  function EndAround(x: Word, y: Word): Word {
    if x + y > 0xFFFF then x + y - 0xFFFF else x + y
  }

  // ----- csum_replace2

  /** The arithmetic of csum_replace2 on uint16_t, statement by statement. */
  method CsumReplace2(sum: Word, m: Word, m': Word) returns (r: Word)
    ensures r == Replaced(sum, m, m')
  {
    var csum: Word := Not(sum);
    WrapAndCarry(csum, Not(m));
    csum := (csum + Not(m)) % 0x1_0000;
    csum := (csum + (if csum < Not(m) then 1 else 0)) % 0x1_0000;
    WrapAndCarry(csum, m');
    csum := (csum + m') % 0x1_0000;
    csum := (csum + (if csum < m' then 1 else 0)) % 0x1_0000;
    r := Not(csum);
  }

  /** A wrapping 16-bit addition that then adds its carry is one's complement addition. */
  lemma WrapAndCarry(x: Word, y: Word)
    ensures var t := (x + y) % 0x1_0000; (t + (if t < y then 1 else 0)) % 0x1_0000 == EndAround(x, y)
  {
  }

  /** Equation 3 of section 3 of RFC 1624: HC' = ~(~HC + ~m + m'). */
  function Replaced(sum: Word, m: Word, m': Word): Word {
    Not(EndAround(EndAround(Not(sum), Not(m)), m'))
  }

  /** The update changes the checksum by the difference of the words, modulo 2^16 - 1. */
  lemma ReplacedCongruent(sum: Word, m: Word, m': Word)
    ensures (Replaced(sum, m, m') - (sum + m - m')) % MOD == 0
  {
    var d := Replaced(sum, m, m') - (sum + m - m');
    assert d == 0 || d == 0xFFFF || d == -0xFFFF || d == 2 * 0xFFFF || d == -2 * 0xFFFF;
  }

  /** Replacing a word and putting it back restores every checksum except 0xFFFF. */
  lemma ReplaceBackRestoresIff(sum: Word, m: Word, m': Word)
    ensures Replaced(Replaced(sum, m, m'), m', m) == sum <==> sum != 0xFFFF
  {
  }

  /** Replacing in two steps equals replacing at once, except where the direct update yields negative zero. */
  lemma ReplaceChainsIff(sum: Word, a: Word, b: Word, c: Word)
    ensures Replaced(Replaced(sum, a, b), b, c) == Replaced(sum, a, c) <==> !(sum == 0xFFFF && a == 0xFFFF && c == 0)
  {
  }

  // ----- sums over messages

  /** Two bytes as a 16-bit word, in network order or as a little-endian host reads them. */
  function WordOf(x: Byte, y: Byte, network: bool): Word {
    if network then 0x100 * x + y else x + 0x100 * y
  }

  /** The one's complement sum of a message; an odd last byte is padded with zero. */
  function OnesSum(m: seq<Byte>, network: bool): Word {
    if m == [] then 0
    else if |m| == 1 then WordOf(m[0], 0, network)
    else EndAround(WordOf(m[0], m[1], network), OnesSum(m[2..], network))
  }

  /** The same words added as integers. */
  function Total(m: seq<Byte>, network: bool): nat {
    if m == [] then 0
    else if |m| == 1 then WordOf(m[0], 0, network)
    else WordOf(m[0], m[1], network) + Total(m[2..], network)
  }

  /** All carries folded back into 16 bits: zero only for zero, else a residue from 1 to 0xFFFF. */
  function Fold(t: nat): Word {
    if t == 0 then 0 else (t - 1) % MOD + 1
  }

  lemma FoldAdd(x: Word, t: nat)
    ensures EndAround(x, Fold(t)) == Fold(x + t)
  {
    if x > 0 && t > 0 {
      var q, r := (t - 1) / 0xFFFF, (t - 1) % 0xFFFF;
      assert t - 1 == 0xFFFF * q + r;
      if x + r >= 0xFFFF {
        assert x + t - 1 == 0xFFFF * (q + 1) + (x + r - 0xFFFF);
      }
    }
  }

  lemma {:induction false} OnesSumIsFold(m: seq<Byte>, network: bool)
    ensures OnesSum(m, network) == Fold(Total(m, network))
  {
    if |m| >= 2 {
      OnesSumIsFold(m[2..], network);
      FoldAdd(WordOf(m[0], m[1], network), Total(m[2..], network));
    }
  }

  lemma FoldIsFull(t: nat)
    ensures Fold(t) == 0xFFFF <==> t > 0 && t % 0xFFFF == 0
  {
  }

  /** The sums of the bytes at even and at odd positions. */
  function Evens(m: seq<Byte>): nat {
    if m == [] then 0 else if |m| == 1 then m[0] else m[0] + Evens(m[2..])
  }

  function Odds(m: seq<Byte>): nat {
    if |m| <= 1 then 0 else m[1] + Odds(m[2..])
  }

  lemma {:induction false} TotalOfBytes(m: seq<Byte>, network: bool)
    ensures Total(m, network) == if network then 0x100 * Evens(m) + Odds(m) else Evens(m) + 0x100 * Odds(m)
  {
    if |m| >= 2 {
      TotalOfBytes(m[2..], network);
    }
  }

  function Swap(x: Word): Word {
    0x100 * (x % 0x100) + x / 0x100
  }

  lemma SwapIsTimes256(x: Word)
    ensures 0x100 * x == Swap(x) + 0xFFFF * (x / 0x100)
    ensures Swap(x) == 0 <==> x == 0
    ensures Swap(Swap(x)) == x
  {
  }

  /** Two folded values that agree modulo 2^16 - 1, and both or neither zero, are equal. */
  lemma FoldUnique(t: nat, x: Word, k: int)
    requires t == x + 0xFFFF * k && (t == 0 <==> x == 0)
    ensures Fold(t) == x
  {
  }

  /** RFC 1071, section 2 (B): summing in the other byte order gives the same sum with its bytes swapped. */
  lemma ByteOrderIndependence(m: seq<Byte>)
    ensures OnesSum(m, true) == Swap(OnesSum(m, false))
  {
    OnesSumIsFold(m, true);
    OnesSumIsFold(m, false);
    TotalOfBytes(m, true);
    TotalOfBytes(m, false);
    SwapOfFold(Evens(m), Odds(m));
  }

  lemma FoldQuotient(t: nat) returns (q: nat)
    ensures t == Fold(t) + 0xFFFF * q && (Fold(t) == 0 <==> t == 0)
  {
    q := if t == 0 then 0 else (t - 1) / 0xFFFF;
  }

  lemma SwapOfFold(e: nat, o: nat)
    ensures Fold(0x100 * e + o) == Swap(Fold(e + 0x100 * o))
  {
    hide Fold, Swap;
    var x := Fold(e + 0x100 * o);
    SwapIsTimes256(x);
    var q := FoldQuotient(e + 0x100 * o);
    FoldUnique(0x100 * e + o, Swap(x), x / 0x100 + 0x100 * q - o);
  }

  /** A receiver accepts a message whose sum, checksum field included, has all bits set. */
  predicate Validates(m: seq<Byte>, network: bool) {
    OnesSum(m, network) == 0xFFFF
  }

  lemma ValidInBothOrders(m: seq<Byte>)
    ensures Validates(m, true) <==> Validates(m, false)
  {
    ByteOrderIndependence(m);
    SwapIsTimes256(OnesSum(m, false));
  }
}

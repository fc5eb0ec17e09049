/** HASH_JEN, the hash function the table uses by default, on 32-bit words. */
module JenkinsHash {
  import opened Bits

  const WORD: nat := 0x1_0000_0000

  type Word = x: nat | x < WORD

  /** The three words HASH_JEN keeps: `_hj_i`, `_hj_j` and `hashv`. */
  datatype Words = Words(a: Word, b: Word, c: Word)

  // ----- unsigned 32-bit operators

  function Add(x: Word, y: Word): Word { if x + y < WORD then x + y else x + y - WORD }

  function Sub(x: Word, y: Word): Word { if x >= y then x - y else x - y + WORD }

  function Xor(x: nat, y: nat): nat
    decreases x + y
  {
    if x == 0 && y == 0 then 0 else 2 * Xor(x / 2, y / 2) + (x + y) % 2
  }

  function Shl(x: Word, k: nat): Word { x * Pow2(k) % WORD }

  function Shr(x: Word, k: nat): Word { ShiftRight(x, k) % WORD }

  lemma XorByBits(x: nat, y: nat)
    ensures Xor(x, y) == 2 * Xor(x / 2, y / 2) + (x + y) % 2
    ensures Xor(x, y) / 2 == Xor(x / 2, y / 2) && Xor(x, y) % 2 == (x + y) % 2
  {
  }

  lemma {:induction false} XorTwice(x: nat, y: nat)
    ensures Xor(Xor(x, y), y) == x
    decreases x + y
  {
    if x != 0 || y != 0 {
      hide Xor;
      var z := Xor(x, y);
      XorByBits(x, y);
      XorByBits(z, y);
      XorTwice(x / 2, y / 2);
      ParityCancels(x, y, z);
    }
  }

  lemma ParityCancels(x: nat, y: nat, z: nat)
    requires z % 2 == (x + y) % 2
    ensures (z + y) % 2 == x % 2
  {
  }

  lemma {:induction false} XorBelow(x: nat, y: nat, k: nat)
    requires x < Pow2(k) && y < Pow2(k)
    ensures Xor(x, y) < Pow2(k)
  {
    if k > 0 && (x != 0 || y != 0) {
      XorBelow(x / 2, y / 2, k - 1);
    }
  }

  function XorWord(x: Word, y: Word): Word {
    Pow2Values();
    XorBelow(x, y, 32);
    Xor(x, y)
  }

  // ----- HASH_JEN_MIX

  /** `x -= y; x -= z; x ^= s`, the statement HASH_JEN_MIX is made of. */
  function Step(x: Word, y: Word, z: Word, s: Word): Word {
    XorWord(Sub(Sub(x, y), z), s)
  }

  function Unstep(x: Word, y: Word, z: Word, s: Word): Word {
    Add(Add(XorWord(x, s), z), y)
  }

  lemma SubAdd(x: Word, y: Word, z: Word)
    ensures Add(Add(Sub(Sub(x, y), z), z), y) == x
    ensures Sub(Sub(Add(Add(x, z), y), y), z) == x
  {
  }

  lemma StepInverse(x: Word, y: Word, z: Word, s: Word)
    ensures Unstep(Step(x, y, z, s), y, z, s) == x
    ensures Step(Unstep(x, y, z, s), y, z, s) == x
  {
    hide Xor, Add, Sub;
    XorTwice(Sub(Sub(x, y), z), s);
    SubAdd(x, y, z);
    XorTwice(x, s);
    SubAdd(XorWord(x, s), y, z);
  }

  /** One third of HASH_JEN_MIX; the three thirds differ in their shift amounts. */
  function Round(w: Words, x: nat, y: nat, z: nat): Words {
    var a := Step(w.a, w.b, w.c, Shr(w.c, x));
    var b := Step(w.b, w.c, a, Shl(a, y));
    var c := Step(w.c, a, b, Shr(b, z));
    Words(a, b, c)
  }

  function Unround(w: Words, x: nat, y: nat, z: nat): Words {
    var c := Unstep(w.c, w.a, w.b, Shr(w.b, z));
    var b := Unstep(w.b, c, w.a, Shl(w.a, y));
    var a := Unstep(w.a, b, c, Shr(c, x));
    Words(a, b, c)
  }

  lemma RoundInverse(w: Words, x: nat, y: nat, z: nat)
    ensures Unround(Round(w, x, y, z), x, y, z) == w
    ensures Round(Unround(w, x, y, z), x, y, z) == w
  {
    hide Step, Unstep, Shl, Shr;
    var r := Round(w, x, y, z);
    StepInverse(w.a, w.b, w.c, Shr(w.c, x));
    StepInverse(w.b, w.c, r.a, Shl(r.a, y));
    StepInverse(w.c, r.a, r.b, Shr(r.b, z));
    var u := Unround(w, x, y, z);
    StepInverse(w.c, w.a, w.b, Shr(w.b, z));
    StepInverse(w.b, u.c, w.a, Shl(w.a, y));
    StepInverse(w.a, u.b, u.c, Shr(u.c, x));
  }

  function Mix(w: Words): Words {
    Round(Round(Round(w, 13, 8, 13), 12, 16, 5), 3, 10, 15)
  }

  function Unmix(w: Words): Words {
    Unround(Unround(Unround(w, 3, 10, 15), 12, 16, 5), 13, 8, 13)
  }

  /** HASH_JEN_MIX loses nothing: it is a bijection on triples of words. */
  lemma MixIsBijective(w: Words)
    ensures Unmix(Mix(w)) == w && Mix(Unmix(w)) == w
  {
    hide Round, Unround;
    var r := Round(w, 13, 8, 13);
    RoundInverse(w, 13, 8, 13);
    RoundInverse(r, 12, 16, 5);
    RoundInverse(Round(r, 12, 16, 5), 3, 10, 15);
    var u := Unround(w, 3, 10, 15);
    RoundInverse(w, 3, 10, 15);
    RoundInverse(u, 12, 16, 5);
    RoundInverse(Unround(u, 12, 16, 5), 13, 8, 13);
  }

  /** Shifts by the amounts of HASH_JEN_MIX are divisions and products modulo 2^32. */
  lemma ShiftsAreArithmetic(x: Word)
    ensures Shr(x, 13) == x / 8192 && Shr(x, 12) == x / 4096 && Shr(x, 5) == x / 32
    ensures Shr(x, 3) == x / 8 && Shr(x, 15) == x / 32768
    ensures Shl(x, 8) == x * 256 % WORD && Shl(x, 16) == x * 65536 % WORD && Shl(x, 10) == x * 1024 % WORD
  {
    Pow2OfShifts();
    hide Pow2, ShiftRight;
    ShiftIsDivision(x, 13);
    ShiftIsDivision(x, 12);
    ShiftIsDivision(x, 5);
    ShiftIsDivision(x, 3);
    ShiftIsDivision(x, 15);
  }

  lemma Pow2OfShifts()
    ensures Pow2(3) == 8 && Pow2(5) == 32 && Pow2(8) == 256 && Pow2(10) == 1024 && Pow2(12) == 4096
    ensures Pow2(13) == 8192 && Pow2(15) == 32768 && Pow2(16) == 65536
  {
    Pow2Adds(3, 5);
    Pow2Adds(5, 5);
    Pow2Adds(5, 8);
    Pow2Adds(3, 10);
    Pow2Adds(12, 3);
    Pow2Adds(12, 1);
    Pow2Adds(8, 8);
    Pow2Adds(2, 10);
  }

  /** HASH_JEN_MIX, statement by statement, with its shifts written as arithmetic. */
  lemma MixIsNineStatements(w: Words)
    ensures var a1 := XorWord(Sub(Sub(w.a, w.b), w.c), w.c / 8192);
            var b1 := XorWord(Sub(Sub(w.b, w.c), a1), a1 * 256 % WORD);
            var c1 := XorWord(Sub(Sub(w.c, a1), b1), b1 / 8192);
            var a2 := XorWord(Sub(Sub(a1, b1), c1), c1 / 4096);
            var b2 := XorWord(Sub(Sub(b1, c1), a2), a2 * 65536 % WORD);
            var c2 := XorWord(Sub(Sub(c1, a2), b2), b2 / 32);
            var a3 := XorWord(Sub(Sub(a2, b2), c2), c2 / 8);
            var b3 := XorWord(Sub(Sub(b2, c2), a3), a3 * 1024 % WORD);
            var c3 := XorWord(Sub(Sub(c2, a3), b3), b3 / 32768);
            Mix(w) == Words(a3, b3, c3)
  {
    hide XorWord, Sub, Shl, Shr;
    var r := Round(w, 13, 8, 13);
    ShiftsAreArithmetic(w.c);
    ShiftsAreArithmetic(r.a);
    ShiftsAreArithmetic(r.b);
    var r' := Round(r, 12, 16, 5);
    ShiftsAreArithmetic(r.c);
    ShiftsAreArithmetic(r'.a);
    ShiftsAreArithmetic(r'.b);
    var r'' := Round(r', 3, 10, 15);
    ShiftsAreArithmetic(r'.c);
    ShiftsAreArithmetic(r''.a);
    ShiftsAreArithmetic(r''.b);
  }

  // ----- the keyed hash

  /** Byte `i` of the key, the key being continued by zero bytes. */
  function Padded(key: seq<Byte>, i: nat): Byte {
    if i < |key| then key[i] else 0
  }

  /** The little-endian word at offset `i` of the padded key. */
  function Word32(key: seq<Byte>, i: nat): Word {
    Padded(key, i) + 0x100 * Padded(key, i + 1) + 0x1_0000 * Padded(key, i + 2) + 0x100_0000 * Padded(key, i + 3)
  }

  /** The words after the first 12 bytes of the key have been added and mixed in. */
  function Absorb(w: Words, key: seq<Byte>): Words {
    Mix(Words(Add(w.a, Word32(key, 0)), Add(w.b, Word32(key, 4)), Add(w.c, Word32(key, 8))))
  }

  /** The last 0 to 11 bytes; the low byte of the third word is kept for the key length. */
  function AddTail(w: Words, tail: seq<Byte>, len: Word): Words {
    Words(Add(w.a, Word32(tail, 0)), Add(w.b, Word32(tail, 4)),
          Add(Add(w.c, len), 0x100 * (Padded(tail, 8) + 0x100 * Padded(tail, 9) + 0x1_0000 * Padded(tail, 10))))
  }

  function Digest(w: Words, key: seq<Byte>, len: Word): Words
    decreases |key|
  {
    hide Absorb, AddTail, Mix;
    if |key| < 12 then Mix(AddTail(w, key, len)) else Digest(Absorb(w, key), key[12..], len)
  }

  const START := Words(0x9e37_79b9, 0x9e37_79b9, 0xfeed_beef)

  function Jen(key: seq<Byte>): Words
    requires |key| < WORD
  {
    Digest(START, key, |key|)
  }

  /** The digest byte by byte, for the key `k` continued by zeros: three little-endian words at a time, in the end with
      the length in front of the last three bytes. */
  lemma DigestByBytes(w: Words, key: seq<Byte>, len: Word, k: seq<nat>)
    requires k == key + [0, 0, 0, 0, 0, 0, 0, 0, 0, 0, 0, 0]
    ensures forall i :: 0 <= i < 12 ==> k[i] < 0x100
    ensures var a := Add(w.a, k[0] + 0x100 * k[1] + 0x1_0000 * k[2] + 0x100_0000 * k[3]);
            var b := Add(w.b, k[4] + 0x100 * k[5] + 0x1_0000 * k[6] + 0x100_0000 * k[7]);
            Digest(w, key, len) ==
              if |key| >= 12 then
                var c := Add(w.c, k[8] + 0x100 * k[9] + 0x1_0000 * k[10] + 0x100_0000 * k[11]);
                Digest(Mix(Words(a, b, c)), key[12..], len)
              else
                var c := Add(Add(w.c, len), 0x100 * k[8] + 0x1_0000 * k[9] + 0x100_0000 * k[10]);
                Mix(Words(a, b, c))
  {
    hide Mix, Add;
    forall i | 0 <= i < 12 ensures Padded(key, i) == k[i] {
    }
  }

  lemma ShiftedBytes(b: Byte)
    ensures Shl(b, 8) == 0x100 * b && Shl(b, 16) == 0x1_0000 * b && Shl(b, 24) == 0x100_0000 * b
  {
    Pow2Values();
  }

  /** HASH_JEN: one pass over the key in blocks of 12 bytes, then a switch that falls through. */
  method HashJen(key: array<Byte>) returns (hashv: Word)
    requires key.Length < WORD
    ensures hashv == Jen(key[..]).c
    ensures hashv == Digest(Words(0x9e37_79b9, 0x9e37_79b9, 0xfeed_beef), key[..], key.Length).c
  {
    hide Mix, Add, Word32;
    hashv := 0xfeed_beef;
    var i: Word, j: Word := 0x9e37_79b9, 0x9e37_79b9;
    var k, at := key.Length, 0;
    assert key[0..] == key[..];
    while k >= 12
      invariant 0 <= k && 0 <= at && at + k == key.Length
      invariant Digest(Words(i, j, hashv), key[at..], key.Length) == Jen(key[..])
    {
      ghost var rest := key[at..];
      i := Add(i, LittleEndian(key, at, 0));
      j := Add(j, LittleEndian(key, at, 4));
      hashv := Add(hashv, LittleEndian(key, at, 8));
      var mixed := Mix(Words(i, j, hashv));
      i, j, hashv := mixed.a, mixed.b, mixed.c;
      at := at + 12;
      k := k - 12;
      assert rest[12..] == key[at..];
    }
    i, j, hashv := HashTail(key, at, i, j, hashv);
    hashv := Mix(Words(i, j, hashv)).c;
  }

  function LittleEndian(key: array<Byte>, at: nat, i: nat): (r: Word)
    requires at + i + 4 <= key.Length
    reads key
    ensures r == Word32(key[at..], i)
  {
    ShiftedBytes(key[at + i + 1]);
    ShiftedBytes(key[at + i + 2]);
    ShiftedBytes(key[at + i + 3]);
    key[at + i] + Shl(key[at + i + 1], 8) + Shl(key[at + i + 2], 16) + Shl(key[at + i + 3], 24)
  }

  /** The switch over the last `key.Length - at` bytes, every case falling through to the next. */
  method HashTail(key: array<Byte>, at: nat, a: Word, b: Word, c: Word) returns (i: Word, j: Word, hashv: Word)
    requires at <= key.Length < at + 12 && key.Length < WORD
    ensures Words(i, j, hashv) == AddTail(Words(a, b, c), key[at..], key.Length)
  {
    hide Shl;
    ghost var tail := key[at..];
    i, j := a, b;
    hashv := Add(c, key.Length);
    if at + 10 < key.Length { hashv := Add(hashv, Shl(key[at + 10], 24)); ShiftedBytes(key[at + 10]); }
    if at + 9 < key.Length { hashv := Add(hashv, Shl(key[at + 9], 16)); ShiftedBytes(key[at + 9]); }
    if at + 8 < key.Length { hashv := Add(hashv, Shl(key[at + 8], 8)); ShiftedBytes(key[at + 8]); }
    assert hashv == AddTail(Words(a, b, c), tail, key.Length).c;
    if at + 7 < key.Length { j := Add(j, Shl(key[at + 7], 24)); ShiftedBytes(key[at + 7]); }
    if at + 6 < key.Length { j := Add(j, Shl(key[at + 6], 16)); ShiftedBytes(key[at + 6]); }
    if at + 5 < key.Length { j := Add(j, Shl(key[at + 5], 8)); ShiftedBytes(key[at + 5]); }
    if at + 4 < key.Length { j := Add(j, key[at + 4]); }
    assert j == Add(b, Word32(tail, 4));
    if at + 3 < key.Length { i := Add(i, Shl(key[at + 3], 24)); ShiftedBytes(key[at + 3]); }
    if at + 2 < key.Length { i := Add(i, Shl(key[at + 2], 16)); ShiftedBytes(key[at + 2]); }
    if at + 1 < key.Length { i := Add(i, Shl(key[at + 1], 8)); ShiftedBytes(key[at + 1]); }
    if at < key.Length { i := Add(i, key[at]); }
    assert i == Add(a, Word32(tail, 0));
  }

  // ----- what the mixing cannot lose

  lemma MixInjective(w: Words, v: Words)
    ensures Mix(w) == Mix(v) <==> w == v
  {
    hide Mix, Unmix;
    MixIsBijective(w);
    MixIsBijective(v);
  }

  lemma AddInjective(x: Word, y: Word, p: Word, q: Word)
    ensures Add(x, p) == Add(x, q) <==> p == q
    ensures Add(x, p) == Add(y, p) <==> x == y
  {
  }

  lemma Word32Injective(k: seq<Byte>, l: seq<Byte>, i: nat)
    requires Word32(k, i) == Word32(l, i)
    ensures forall j :: i <= j < i + 4 ==> Padded(k, j) == Padded(l, j)
  {
    hide Padded;
    DigitsInjective(Padded(k, i), Padded(k, i + 1), Padded(k, i + 2), Padded(k, i + 3),
                    Padded(l, i), Padded(l, i + 1), Padded(l, i + 2), Padded(l, i + 3));
  }

  lemma DigitsInjective(a: Byte, b: Byte, c: Byte, d: Byte, a': Byte, b': Byte, c': Byte, d': Byte)
    requires a + 0x100 * b + 0x1_0000 * c + 0x100_0000 * d == a' + 0x100 * b' + 0x1_0000 * c' + 0x100_0000 * d'
    ensures a == a' && b == b' && c == c' && d == d'
  {
    LowDigit(a, b + 0x100 * c + 0x1_0000 * d, a', b' + 0x100 * c' + 0x1_0000 * d');
    LowDigit(b, c + 0x100 * d, b', c' + 0x100 * d');
    LowDigit(c, d, c', d');
  }

  lemma LowDigit(a: Byte, x: nat, a': Byte, x': nat)
    requires a + 0x100 * x == a' + 0x100 * x'
    ensures a == a' && x == x'
  {
  }

  /** Different tails leave different words, whatever was mixed before. */
  lemma TailInjective(w: Words, k: seq<Byte>, l: seq<Byte>, len: Word)
    requires |k| == |l| < 12 && k != l
    ensures AddTail(w, k, len) != AddTail(w, l, len)
  {
    if AddTail(w, k, len) == AddTail(w, l, len) {
      TailBytes(w, k, len, l, len);
      SamePadding(k, l);
    }
  }

  lemma TailBytes(w: Words, k: seq<Byte>, m: Word, l: seq<Byte>, n: Word)
    requires |k| < 12 && |l| < 12 && (m == n || (m < 12 && n < 12))
    requires AddTail(w, k, m) == AddTail(w, l, n)
    ensures m == n
    ensures forall i :: 0 <= i < 12 ==> Padded(k, i) == Padded(l, i)
  {
    hide Padded, Word32;
    AddInjective(w.a, w.a, Word32(k, 0), Word32(l, 0));
    AddInjective(w.b, w.b, Word32(k, 4), Word32(l, 4));
    Word32Injective(k, l, 0);
    Word32Injective(k, l, 4);
    ThirdWord(w.c, m, Padded(k, 8), Padded(k, 9), Padded(k, 10), n, Padded(l, 8), Padded(l, 9), Padded(l, 10));
    NoEleventhByte(k);
    NoEleventhByte(l);
  }

  lemma NoEleventhByte(k: seq<Byte>)
    requires |k| < 12
    ensures Padded(k, 11) == 0
  {
  }

  lemma SamePadding(k: seq<Byte>, l: seq<Byte>)
    requires |k| == |l| && forall i :: 0 <= i < |k| ==> Padded(k, i) == Padded(l, i)
    ensures k == l
  {
    assert forall i :: 0 <= i < |k| ==> k[i] == Padded(k, i) == Padded(l, i) == l[i];
  }

  lemma ThirdWord(c: Word, m: Word, x: Byte, y: Byte, z: Byte, n: Word, x': Byte, y': Byte, z': Byte)
    requires m == n || (m < 12 && n < 12)
    requires Add(Add(c, m), 0x100 * (x + 0x100 * y + 0x1_0000 * z))
             == Add(Add(c, n), 0x100 * (x' + 0x100 * y' + 0x1_0000 * z'))
    ensures m == n && x == x' && y == y' && z == z'
  {
    var p, q := x + 0x100 * y + 0x1_0000 * z, x' + 0x100 * y' + 0x1_0000 * z';
    if m == n {
      AddInjective(Add(c, m), Add(c, m), 0x100 * p, 0x100 * q);
    } else {
      LengthInLowByte(c, m, p, n, q);
    }
    LowDigit(x, y + 0x100 * z, x', y' + 0x100 * z');
    LowDigit(y, z, y', z');
  }

  lemma LengthInLowByte(c: Word, m: Word, p: nat, n: Word, q: nat)
    requires m < 12 && n < 12 && p < 0x100_0000 && q < 0x100_0000
    requires Add(Add(c, m), 0x100 * p) == Add(Add(c, n), 0x100 * q)
    ensures m == n && p == q
  {
    LowDigit(m, p, n, q);
  }

  /** Any two different keys shorter than 12 bytes, of equal or different lengths, end in different states. */
  lemma ShortKeysDiffer(k: seq<Byte>, l: seq<Byte>)
    requires |k| < 12 && |l| < 12 && k != l
    ensures Jen(k) != Jen(l)
  {
    hide Mix, AddTail, Padded;
    MixInjective(AddTail(START, k, |k|), AddTail(START, l, |l|));
    if AddTail(START, k, |k|) == AddTail(START, l, |l|) {
      TailBytes(START, k, |k|, l, |l|);
      SamePadding(k, l);
    }
  }

  lemma {:induction false} DigestInjectiveInState(w: Words, v: Words, key: seq<Byte>, len: Word)
    requires w != v
    ensures Digest(w, key, len) != Digest(v, key, len)
    decreases |key|
  {
    hide Mix, Word32, Add;
    if |key| < 12 {
      AddTailInjectiveInState(w, v, key, len);
      MixInjective(AddTail(w, key, len), AddTail(v, key, len));
    } else {
      AbsorbInjective(w, v, key, key);
      DigestInjectiveInState(Absorb(w, key), Absorb(v, key), key[12..], len);
    }
  }

  lemma AddTailInjectiveInState(w: Words, v: Words, key: seq<Byte>, len: Word)
    requires w != v
    ensures AddTail(w, key, len) != AddTail(v, key, len)
  {
    hide Word32, Padded;
  }

  lemma AbsorbInjective(w: Words, v: Words, k: seq<Byte>, l: seq<Byte>)
    requires |k| >= 12 && |l| >= 12
    requires if w == v then k[..12] != l[..12] else k[..12] == l[..12]
    ensures Absorb(w, k) != Absorb(v, l)
  {
    hide Mix, Word32, Padded;
    var x := Words(Add(w.a, Word32(k, 0)), Add(w.b, Word32(k, 4)), Add(w.c, Word32(k, 8)));
    var y := Words(Add(v.a, Word32(l, 0)), Add(v.b, Word32(l, 4)), Add(v.c, Word32(l, 8)));
    MixInjective(x, y);
    if w == v {
      if x == y {
        SameWordsSameBlock(k, l);
      }
    } else {
      SameBlockSameWords(k, l);
    }
  }

  lemma SameBlockSameWords(k: seq<Byte>, l: seq<Byte>)
    requires |k| >= 12 && |l| >= 12 && k[..12] == l[..12]
    ensures Word32(k, 0) == Word32(l, 0) && Word32(k, 4) == Word32(l, 4) && Word32(k, 8) == Word32(l, 8)
  {
    assert forall i :: 0 <= i < 12 ==> Padded(k, i) == k[..12][i] == l[..12][i] == Padded(l, i);
  }

  lemma SameWordsSameBlock(k: seq<Byte>, l: seq<Byte>)
    requires |k| >= 12 && |l| >= 12
    requires Word32(k, 0) == Word32(l, 0) && Word32(k, 4) == Word32(l, 4) && Word32(k, 8) == Word32(l, 8)
    ensures k[..12] == l[..12]
  {
    hide Word32;
    Word32Injective(k, l, 0);
    Word32Injective(k, l, 4);
    Word32Injective(k, l, 8);
    assert forall i :: 0 <= i < 12 ==> Padded(k, i) == k[i] && Padded(l, i) == l[i];
  }

  /** Keys of one length that differ inside a single block, the tail included, end in different states. */
  lemma {:induction false} OneBlockDiffers(w: Words, before: seq<Byte>, k: seq<Byte>, l: seq<Byte>, after: seq<Byte>,
                                           len: Word)
    requires |before| % 12 == 0 && |k| == |l| <= 12 && k != l && (|k| == 12 || after == [])
    ensures Digest(w, before + k + after, len) != Digest(w, before + l + after, len)
    decreases |before|
  {
    hide Mix, AddTail, Absorb;
    var s, t := before + k + after, before + l + after;
    if before != [] {
      assert s[..12] == before[..12] == t[..12];
      assert s[12..] == before[12..] + k + after && t[12..] == before[12..] + l + after;
      SameBlockSameState(w, s, t);
      OneBlockDiffers(Absorb(w, s), before[12..], k, l, after, len);
    } else if |k| < 12 {
      assert s == k && t == l;
      TailInjective(w, k, l, len);
      MixInjective(AddTail(w, k, len), AddTail(w, l, len));
    } else {
      assert s[..12] == k && t[..12] == l && s[12..] == after == t[12..];
      AbsorbInjective(w, w, s, t);
      DigestInjectiveInState(Absorb(w, s), Absorb(w, t), after, len);
    }
  }

  lemma SameBlockSameState(w: Words, k: seq<Byte>, l: seq<Byte>)
    requires |k| >= 12 && |l| >= 12 && k[..12] == l[..12]
    ensures Absorb(w, k) == Absorb(w, l)
  {
    hide Mix, Word32;
    SameBlockSameWords(k, l);
  }
}

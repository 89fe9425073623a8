/** Bitmaps as the source stores them: bit k is bit k % 8 of byte k / 8, set when the object is in use. */
module Bitmap {
  const BLOCK_SIZE: nat := 4096
  const BITS: nat := 32768

  type Bits = m: seq<bv8> | |m| == BLOCK_SIZE witness seq(BLOCK_SIZE, i => 0)

  /** 1 << i */
  function Mask(i: nat): bv8
    requires i < 8
  {
    match i
    case 0 => 1
    case 1 => 2
    case 2 => 4
    case 3 => 8
    case 4 => 16
    case 5 => 32
    case 6 => 64
    case 7 => 128
  }

  predicate Bit(m: Bits, k: nat)
    requires k < BITS
  {
    m[k / 8] & Mask(k % 8) != 0
  }

  /** Bits are numbered from the lowest bit of the first byte: taken as a number, byte k / 8 has bit k % 8. */
  lemma BitByValue(m: Bits, k: nat)
    requires k < BITS
    ensures Bit(m, k) <==> (m[k / 8] as nat) / Power2(k % 8) % 2 == 1
  {
    ByteBit(m[k / 8], k % 8);
  }

  function Power2(i: nat): (p: nat)
    ensures p > 0
  {
    if i == 0 then 1 else 2 * Power2(i - 1)
  }

  lemma ByteBit(b: bv8, i: nat)
    requires i < 8
    ensures b & Mask(i) != 0 <==> (b as nat) / Power2(i) % 2 == 1
  {
    Powers();
    Shifted(b);
    Tested(b);
    match i {
      case 0 => LowBit(b);
      case 1 => LowBit(b >> 1);
      case 2 => LowBit(b >> 2);
      case 3 => LowBit(b >> 3);
      case 4 => LowBit(b >> 4);
      case 5 => LowBit(b >> 5);
      case 6 => LowBit(b >> 6);
      case 7 => LowBit(b >> 7);
    }
  }

  lemma Powers()
    ensures Power2(0) == 1 && Power2(1) == 2 && Power2(2) == 4 && Power2(3) == 8
    ensures Power2(4) == 16 && Power2(5) == 32 && Power2(6) == 64 && Power2(7) == 128
  {
  }

  lemma LowBit(b: bv8)
    ensures b & 1 != 0 <==> (b as nat) % 2 == 1
  {
  }

  lemma Tested(b: bv8)
    ensures (b & 2 == 0 <==> (b >> 1) & 1 == 0) && (b & 4 == 0 <==> (b >> 2) & 1 == 0)
    ensures (b & 8 == 0 <==> (b >> 3) & 1 == 0) && (b & 16 == 0 <==> (b >> 4) & 1 == 0)
    ensures (b & 32 == 0 <==> (b >> 5) & 1 == 0) && (b & 64 == 0 <==> (b >> 6) & 1 == 0)
    ensures b & 128 == 0 <==> (b >> 7) & 1 == 0
  {
  }

  lemma Shifted(b: bv8)
    ensures (b >> 1) as nat == (b as nat) / 2 && (b >> 2) as nat == (b as nat) / 4
    ensures (b >> 3) as nat == (b as nat) / 8 && (b >> 4) as nat == (b as nat) / 16
    ensures (b >> 5) as nat == (b as nat) / 32 && (b >> 6) as nat == (b as nat) / 64
    ensures (b >> 7) as nat == (b as nat) / 128
  {
  }

  function SetBit(m: Bits, k: nat): Bits
    requires k < BITS
  {
    m[k / 8 := m[k / 8] | Mask(k % 8)]
  }

  function ClearBit(m: Bits, k: nat): Bits
    requires k < BITS
  {
    m[k / 8 := m[k / 8] & !Mask(k % 8)]
  }

  lemma ByteSet(b: bv8, i: nat, j: nat)
    requires i < 8 && j < 8
    ensures ((b | Mask(i)) & Mask(j) != 0) <==> (i == j || b & Mask(j) != 0)
  {
  }

  lemma ByteClear(b: bv8, i: nat, j: nat)
    requires i < 8 && j < 8
    ensures ((b & !Mask(i)) & Mask(j) != 0) <==> (i != j && b & Mask(j) != 0)
  {
  }

  lemma BitAfterSet(m: Bits, k: nat, j: nat)
    requires k < BITS && j < BITS
    ensures Bit(SetBit(m, k), j) <==> (j == k || Bit(m, j))
  {
    if j / 8 == k / 8 {
      ByteSet(m[k / 8], k % 8, j % 8);
    }
  }

  lemma BitAfterClear(m: Bits, k: nat, j: nat)
    requires k < BITS && j < BITS
    ensures Bit(ClearBit(m, k), j) <==> (j != k && Bit(m, j))
  {
    if j / 8 == k / 8 {
      ByteClear(m[k / 8], k % 8, j % 8);
    }
  }

  /** Bits [s, s + n) are all clear. */
  ghost predicate ClearRun(m: Bits, s: nat, n: nat)
    requires s + n <= BITS
  {
    forall k :: s <= k < s + n ==> !Bit(m, k)
  }

  /** The bitmap with bits [s, s + n) set. */
  function SetRun(m: Bits, s: nat, n: nat): Bits
    requires s + n <= BITS
  {
    if n == 0 then m else SetBit(SetRun(m, s, n - 1), s + n - 1)
  }

  lemma {:induction false} BitAfterSetRun(m: Bits, s: nat, n: nat, j: nat)
    requires s + n <= BITS && j < BITS
    ensures Bit(SetRun(m, s, n), j) <==> (s <= j < s + n || Bit(m, j))
  {
    hide Bit, SetBit;
    if n > 0 {
      BitAfterSetRun(m, s, n - 1, j);
      BitAfterSet(SetRun(m, s, n - 1), s + n - 1, j);
    }
  }

  /** The number of clear bits among the first n. */
  function FreeCount(m: Bits, n: nat): (c: nat)
    requires n <= BITS
    ensures c <= n
  {
    if n == 0 then 0 else FreeCount(m, n - 1) + if Bit(m, n - 1) then 0 else 1
  }

  lemma {:induction false} CountSame(m: Bits, m': Bits, n: nat)
    requires n <= BITS && forall k :: 0 <= k < n ==> Bit(m, k) == Bit(m', k)
    ensures FreeCount(m, n) == FreeCount(m', n)
  {
    if n > 0 {
      CountSame(m, m', n - 1);
    }
  }

  lemma {:induction false} CountSetBit(m: Bits, k: nat, n: nat)
    requires k < n <= BITS && !Bit(m, k)
    ensures FreeCount(m, n) == FreeCount(SetBit(m, k), n) + 1
  {
    BitAfterSet(m, k, n - 1);
    if k == n - 1 {
      forall j | 0 <= j < n - 1
        ensures Bit(m, j) == Bit(SetBit(m, k), j)
      {
        BitAfterSet(m, k, j);
      }
      CountSame(m, SetBit(m, k), n - 1);
    } else {
      CountSetBit(m, k, n - 1);
    }
  }

  lemma {:induction false} CountSetRun(m: Bits, s: nat, len: nat, n: nat)
    requires s + len <= n <= BITS && ClearRun(m, s, len)
    ensures FreeCount(m, n) == FreeCount(SetRun(m, s, len), n) + len
  {
    hide FreeCount, Bit, SetBit;
    if len > 0 {
      CountSetRun(m, s, len - 1, n);
      BitAfterSetRun(m, s, len - 1, s + len - 1);
      CountSetBit(SetRun(m, s, len - 1), s + len - 1, n);
    }
  }

  lemma CountClearBit(m: Bits, k: nat, n: nat)
    requires k < n <= BITS && Bit(m, k)
    ensures FreeCount(ClearBit(m, k), n) == FreeCount(m, n) + 1
  {
    var c := ClearBit(m, k);
    BitAfterClear(m, k, k);
    CountSetBit(c, k, n);
    forall j | 0 <= j < n
      ensures Bit(SetBit(c, k), j) == Bit(m, j)
    {
      BitAfterSet(c, k, j);
      BitAfterClear(m, k, j);
    }
    CountSame(SetBit(c, k), m, n);
  }

  lemma {:induction false} CountPositive(m: Bits, k: nat, n: nat)
    requires k < n <= BITS && !Bit(m, k)
    ensures FreeCount(m, n) >= 1
  {
    if k < n - 1 {
      CountPositive(m, k, n - 1);
    }
  }
}

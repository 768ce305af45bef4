/** 64-bit words as integers, with the operators that the machine and the emitted C share. */
module Words {
  const WORD: int := 0x1_0000_0000_0000_0000
  const HALF: int := 0x8000_0000_0000_0000

  type word = x: int | 0 <= x < 0x1_0000_0000_0000_0000
  type int64 = x: int | -0x8000_0000_0000_0000 <= x < 0x8000_0000_0000_0000
  type byte = x: int | 0 <= x < 256

  /** Reduction modulo 2^64. */
  function ToWord(x: int): word {
    x % 0x1_0000_0000_0000_0000
  }

  /** The two's-complement reading of a word. */
  function Signed(w: word): int64 {
    if w < 0x8000_0000_0000_0000 then w else w - 0x1_0000_0000_0000_0000
  }

  function Pow2(n: nat): (r: nat)
    ensures r > 0
  {
    if n == 0 then 1 else 2 * Pow2(n - 1)
  }

  lemma Pow2Sixty4()
    ensures Pow2(64) == WORD
  {
    assert Pow2(8) == 0x100;
    assert Pow2(16) == 0x1_0000;
    assert Pow2(24) == 0x100_0000;
    assert Pow2(32) == 0x1_0000_0000;
    assert Pow2(40) == 0x100_0000_0000;
    assert Pow2(48) == 0x1_0000_0000_0000;
    assert Pow2(56) == 0x100_0000_0000_0000;
  }

  // Bitwise operators, defined by what each bit of the result is.

  datatype BitOp = BAnd | BOr | BXor

  function BitOf(op: BitOp, a: int, b: int): int {
    match op
    case BAnd => if a == 1 && b == 1 then 1 else 0
    case BOr => if a == 1 || b == 1 then 1 else 0
    case BXor => if a != b then 1 else 0
  }

  /** Bit k of a number. */
  function BitAt(x: nat, k: nat): nat {
    if k == 0 then x % 2 else BitAt(x / 2, k - 1)
  }

  ghost predicate IsBitwise(op: BitOp, x: nat, y: nat, w: nat) {
    forall k: nat :: BitAt(w, k) == BitOf(op, BitAt(x, k), BitAt(y, k))
  }

  /** The bitwise combination of two words. */
  ghost function BitWord(op: BitOp, x: word, y: word): word {
    BitwiseExists(op, x, y);
    var w: word :| IsBitwise(op, x, y, w);
    w
  }

  /** The same, computed from the least significant end. */
  function Bitwise(op: BitOp, x: nat, y: nat): nat
    decreases x + y
  {
    if x == 0 && y == 0 then 0
    else 2 * Bitwise(op, x / 2, y / 2) + BitOf(op, x % 2, y % 2)
  }

  lemma {:induction false} BitwiseBound(op: BitOp, x: nat, y: nat, n: nat)
    requires x < Pow2(n) && y < Pow2(n)
    ensures Bitwise(op, x, y) < Pow2(n)
    decreases n
  {
    if n > 0 {
      BitwiseBound(op, x / 2, y / 2, n - 1);
    }
  }

  lemma {:induction false} BitwiseBits(op: BitOp, x: nat, y: nat, k: nat)
    ensures BitAt(Bitwise(op, x, y), k) == BitOf(op, BitAt(x, k), BitAt(y, k))
    decreases k
  {
    if k > 0 {
      BitwiseBits(op, x / 2, y / 2, k - 1);
      assert Bitwise(op, x, y) / 2 == Bitwise(op, x / 2, y / 2);
    }
  }

  lemma BitwiseExists(op: BitOp, x: word, y: word)
    ensures exists w: word :: IsBitwise(op, x, y, w)
  {
    Pow2Sixty4();
    BitwiseBound(op, x, y, 64);
    var w: word := Bitwise(op, x, y);
    forall k: nat ensures BitAt(w, k) == BitOf(op, BitAt(x, k), BitAt(y, k)) {
      BitwiseBits(op, x, y, k);
    }
    assert IsBitwise(op, x, y, w);
  }

  /** A number is determined by its bits. */
  lemma {:induction false} BitsDetermine(a: nat, b: nat)
    requires forall k: nat :: BitAt(a, k) == BitAt(b, k)
    ensures a == b
    decreases a + b
  {
    if a + b > 0 {
      assert BitAt(a, 0) == BitAt(b, 0);
      forall k: nat ensures BitAt(a / 2, k) == BitAt(b / 2, k) {
        assert BitAt(a, k + 1) == BitAt(b, k + 1);
      }
      BitsDetermine(a / 2, b / 2);
    }
  }

  /** The two definitions agree. */
  lemma BitWordIs(op: BitOp, x: word, y: word, w: word)
    requires Bitwise(op, x, y) == w
    ensures BitWord(op, x, y) == w
  {
    var v := BitWord(op, x, y);
    forall k: nat ensures BitAt(v, k) == BitAt(w, k) {
      BitwiseBits(op, x, y, k);
    }
    BitsDetermine(v, w);
  }

  lemma {:induction false} AndSelf(x: word)
    ensures BitWord(BAnd, x, x) == x
  {
    var v := BitWord(BAnd, x, x);
    forall k: nat ensures BitAt(v, k) == BitAt(x, k) {
      BitRange(x, k);
    }
    BitsDetermine(v, x);
  }

  lemma {:induction false} BitRange(x: nat, k: nat)
    ensures BitAt(x, k) == 0 || BitAt(x, k) == 1
  {
    if k > 0 {
      BitRange(x / 2, k - 1);
    }
  }

  function ShiftLeft(x: word, n: nat): word {
    ToWord(x * Pow2(n))
  }

  /** Dropping the n low bits. */
  function ShiftRight(x: word, n: nat): word {
    if n == 0 then x else ShiftRight(x / 2, n - 1)
  }

  lemma {:induction false} ShiftRightOnce(x: word, n: nat)
    ensures ShiftRight(x, n + 1) == ShiftRight(x, n) / 2
    decreases n
  {
    if n > 0 {
      ShiftRightOnce(x / 2, n - 1);
    }
  }

  // Reduction modulo 2^64 may be postponed past addition.

  lemma ModIdentity(x: int, q: int)
    ensures ToWord(x + q * WORD) == ToWord(x)
  {
    assert WORD == 0x1_0000_0000_0000_0000;
  }

  /** The low 64 bits of a signed product do not depend on the signed reading. */
  lemma SignedProduct(a: word, b: word)
    ensures ToWord(Signed(a) * Signed(b)) == ToWord(a * b)
  {
    var i: int, j: int := if a < HALF then 0 else 1, if b < HALF then 0 else 1;
    var q: int := i * j * WORD - i * b - j * a;
    assert Signed(a) == a - i * WORD && Signed(b) == b - j * WORD;
    assert Signed(a) * Signed(b) == a * b + q * WORD by {
      if i == 0 {
        assert (j == 0 || j == 1) && q == -(j * a);
      } else if j == 0 {
        assert q + b == 0;
      } else {
        assert q == WORD - b - a;
        assert (a - WORD) * (b - WORD) == a * b - a * WORD - WORD * b + WORD * WORD;
      }
    }
    ModIdentity(a * b, q);
  }

  lemma SumCongruence(a: int, b: int)
    ensures ToWord(ToWord(a) + ToWord(b)) == ToWord(a + b)
    ensures ToWord(ToWord(a) + b) == ToWord(a + b)
    ensures ToWord(a + ToWord(b)) == ToWord(a + b)
  {
  }

  // Little-endian byte memory; addresses wrap modulo 2^64.

  type Memory = word -> byte

  function ReadBytes(m: Memory, a: int, n: nat): nat
    decreases n
  {
    if n == 0 then 0 else m(ToWord(a)) + 256 * ReadBytes(m, a + 1, n - 1)
  }

  lemma {:induction false} ReadBytesBound(m: Memory, a: int, n: nat)
    ensures ReadBytes(m, a, n) < Pow2(8 * n)
    decreases n
  {
    if n > 0 {
      ReadBytesBound(m, a + 1, n - 1);
      Pow2Plus8(8 * (n - 1));
    }
  }

  lemma Pow2Plus8(n: nat)
    ensures Pow2(n + 8) == 256 * Pow2(n)
  {
    assert Pow2(n + 4) == 2 * Pow2(n + 3) == 4 * Pow2(n + 2) == 8 * Pow2(n + 1);
    assert Pow2(n + 8) == 2 * Pow2(n + 7) == 4 * Pow2(n + 6) == 8 * Pow2(n + 5);
  }

  function Read64(m: Memory, a: word): word {
    ReadBytesBound(m, a, 8);
    Pow2Sixty4();
    ReadBytes(m, a, 8)
  }

  function ByteOf(v: word, k: nat): byte {
    ShiftRight(v, 8 * k) % 256
  }

  function Write64(m: Memory, a: word, v: word): Memory {
    (x: word) => if ToWord(x - a) < 8 then ByteOf(v, ToWord(x - a)) else m(x)
  }

  lemma ShiftRightByte(v: word, n: nat)
    ensures ShiftRight(v, n + 8) == ShiftRight(v, n) / 256
  {
    ShiftRightOnce(v, n);
    ShiftRightOnce(v, n + 1);
    ShiftRightOnce(v, n + 2);
    ShiftRightOnce(v, n + 3);
    ShiftRightOnce(v, n + 4);
    ShiftRightOnce(v, n + 5);
    ShiftRightOnce(v, n + 6);
    ShiftRightOnce(v, n + 7);
  }

  lemma {:induction false} ShiftRightAll(v: word, n: nat)
    requires v < Pow2(n)
    ensures ShiftRight(v, n) == 0
    decreases n
  {
    if n > 0 {
      ShiftRightAll(v / 2, n - 1);
    }
  }

  lemma WrittenByte(m: Memory, a: word, v: word, k: nat)
    requires k < 8
    ensures Write64(m, a, v)(ToWord(a + k)) == ByteOf(v, k)
  {
    assert ToWord(ToWord(a + k) - a) == k;
  }

  lemma {:induction false} ReadBackFrom(m: Memory, a: word, v: word, x: int, k: nat)
    requires k <= 8 && x == a + k
    ensures ReadBytes(Write64(m, a, v), x, 8 - k) == ShiftRight(v, 8 * k)
    decreases 8 - k
  {
    if k == 8 {
      Pow2Sixty4();
      ShiftRightAll(v, 64);
    } else {
      ReadBackFrom(m, a, v, x + 1, k + 1);
      ShiftRightByte(v, 8 * k);
      WrittenByte(m, a, v, k);
    }
  }

  lemma ReadBack(m: Memory, a: word, v: word)
    ensures Read64(Write64(m, a, v), a) == v
  {
    ReadBackFrom(m, a, v, a, 0);
  }

  /** Eight bytes starting at each of two addresses that do not overlap, even around the wrap. */
  predicate Apart(a: word, b: word) {
    8 <= ToWord(b - a) <= 0xffff_ffff_ffff_fff8
  }

  lemma OffsetFrom(a: word, b: word, k: nat)
    requires Apart(a, b) && k < 8
    ensures ToWord(ToWord(b + k) - a) == ToWord(b - a) + k
  {
    assert ToWord(b + k) == b + k || ToWord(b + k) == b + k - WORD;
    assert ToWord(b - a) == b - a || ToWord(b - a) == b - a + WORD;
  }

  lemma {:induction false} ReadElsewhereFrom(m: Memory, a: word, v: word, b: word, x: int, k: nat)
    requires Apart(a, b) && k <= 8 && x == b + k
    ensures ReadBytes(Write64(m, a, v), x, 8 - k) == ReadBytes(m, x, 8 - k)
    decreases 8 - k
  {
    if k < 8 {
      ReadElsewhereFrom(m, a, v, b, x + 1, k + 1);
      OffsetFrom(a, b, k);
      assert Write64(m, a, v)(ToWord(x)) == m(ToWord(x));
    }
  }

  lemma ReadElsewhere(m: Memory, a: word, v: word, b: word)
    requires Apart(a, b)
    ensures Read64(Write64(m, a, v), b) == Read64(m, b)
  {
    ReadElsewhereFrom(m, a, v, b, b, 0);
  }
}

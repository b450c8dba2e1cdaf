/** Signature words: the unsigned 16-bit words a bloom signature is stored in, with the
    bitwise operators the C code applies to them written out on their binary digits. */
module BloomWords {

  const SIGN_WORD_BITS: nat := 16

  /** A value of C's uint16. */
  type Word = w: nat | w < 0x1_0000

  /** Digit k of the binary expansion of w. */
  predicate Digit(w: nat, k: nat)
    decreases k
  {
    if k == 0 then w % 2 == 1 else Digit(w / 2, k - 1)
  }

  /** The operator `|`. */
  function Or(a: nat, b: nat): nat
    decreases a + b
  {
    if a == 0 then b
    else if b == 0 then a
    else 2 * Or(a / 2, b / 2) + if a % 2 == 1 || b % 2 == 1 then 1 else 0
  }

  /** The operator `&`. */
  function And(a: nat, b: nat): nat
    decreases a
  {
    if a == 0 || b == 0 then 0
    else 2 * And(a / 2, b / 2) + if a % 2 == 1 && b % 2 == 1 then 1 else 0
  }

  /** `0x01 << k`. */
  function ShiftOne(k: nat): (m: nat)
    ensures m > 0
  {
    if k == 0 then 1 else 2 * ShiftOne(k - 1)
  }

  lemma {:induction false} ZeroDigit(k: nat)
    ensures !Digit(0, k)
  {
    if k > 0 { ZeroDigit(k - 1); }
  }

  lemma {:induction false} OrHalves(a: nat, b: nat)
    ensures Or(a, b) / 2 == Or(a / 2, b / 2)
    ensures Or(a, b) % 2 == 1 <==> a % 2 == 1 || b % 2 == 1
  {
  }

  lemma {:induction false} AndHalves(a: nat, b: nat)
    ensures And(a, b) / 2 == And(a / 2, b / 2)
    ensures And(a, b) % 2 == 1 <==> a % 2 == 1 && b % 2 == 1
  {
  }

  lemma {:induction false} OrDigit(a: nat, b: nat, k: nat)
    ensures Digit(Or(a, b), k) <==> Digit(a, k) || Digit(b, k)
    decreases k
  {
    OrHalves(a, b);
    if k > 0 { OrDigit(a / 2, b / 2, k - 1); }
  }

  lemma {:induction false} AndDigit(a: nat, b: nat, k: nat)
    ensures Digit(And(a, b), k) <==> Digit(a, k) && Digit(b, k)
    decreases k
  {
    AndHalves(a, b);
    if k > 0 { AndDigit(a / 2, b / 2, k - 1); }
  }

  lemma {:induction false} ShiftOneDigit(j: nat, k: nat)
    ensures Digit(ShiftOne(j), k) <==> j == k
    decreases k
  {
    if j == 0 {
      if k > 0 { ZeroDigit(k - 1); }
    } else if k > 0 {
      assert ShiftOne(j) / 2 == ShiftOne(j - 1);
      ShiftOneDigit(j - 1, k - 1);
    }
  }

  /** Words below 2^n stay below 2^n under `|`. */
  lemma {:induction false} OrBound(a: nat, b: nat, n: nat)
    requires a < ShiftOne(n) && b < ShiftOne(n)
    ensures Or(a, b) < ShiftOne(n)
    decreases n
  {
    if n > 0 && a != 0 && b != 0 { OrBound(a / 2, b / 2, n - 1); }
  }

  lemma {:induction false} ShiftOneMono(j: nat, k: nat)
    requires j < k
    ensures 2 * ShiftOne(j) <= ShiftOne(k)
    decreases k
  {
    if j < k - 1 { ShiftOneMono(j, k - 1); }
  }

  /** Numbers below 2^n are determined by their first n digits. */
  lemma {:induction false} DigitsDetermine(a: nat, b: nat, n: nat)
    requires a < ShiftOne(n) && b < ShiftOne(n)
    requires forall k: nat | k < n :: Digit(a, k) <==> Digit(b, k)
    ensures a == b
    decreases n
  {
    if n > 0 {
      assert Digit(a, 0) <==> Digit(b, 0);
      forall k: nat | k < n - 1 ensures Digit(a / 2, k) <==> Digit(b / 2, k) {
        assert Digit(a, k + 1) <==> Digit(b, k + 1);
      }
      DigitsDetermine(a / 2, b / 2, n - 1);
    }
  }

  lemma {:induction false} AndBound(a: nat, b: nat)
    ensures And(a, b) <= b
    decreases a
  {
    if a != 0 && b != 0 { AndBound(a / 2, b / 2); }
  }

  lemma {:induction false} Pow16()
    ensures ShiftOne(16) == 0x1_0000
  {
    assert ShiftOne(4) == 16;
    assert ShiftOne(8) == 256;
    assert ShiftOne(12) == 4096;
  }

  /** The word test of a scan passes when every digit set in the scan word is set in the stored word. */
  lemma {:induction false} CoversWord(stored: Word, wanted: Word)
    requires forall k: nat | k < SIGN_WORD_BITS :: Digit(wanted, k) ==> Digit(stored, k)
    ensures And(stored, wanted) == wanted
  {
    AndBound(stored, wanted);
    Pow16();
    forall k: nat | k < SIGN_WORD_BITS ensures Digit(And(stored, wanted), k) <==> Digit(wanted, k) {
      AndDigit(stored, wanted, k);
    }
    DigitsDetermine(And(stored, wanted), wanted, SIGN_WORD_BITS);
  }

  /** A signature is an array of words; bit i lives in word i / 16 at digit i % 16. */
  type Signature = seq<Word>

  predicate Bit(sign: Signature, i: nat)
    requires i < SIGN_WORD_BITS * |sign|
  {
    Digit(sign[i / SIGN_WORD_BITS], i % SIGN_WORD_BITS)
  }

  /** The abstract value of a signature: the set of its bit positions that are set. */
  function Bits(sign: Signature): (bits: set<nat>) {
    set i: nat | i < SIGN_WORD_BITS * |sign| && Bit(sign, i)
  }

  function ZeroSignature(words: nat): Signature {
    seq(words, _ => 0)
  }

  lemma {:induction false} ZeroSignatureBits(words: nat)
    ensures Bits(ZeroSignature(words)) == {}
  {
    forall i: nat | i < SIGN_WORD_BITS * words ensures !Bit(ZeroSignature(words), i) {
      ZeroDigit(i % SIGN_WORD_BITS);
    }
  }

  /** The macro SETBIT, on a bit inside the signature. */
  function SetBit(sign: Signature, i: nat): (r: Signature)
    requires i < SIGN_WORD_BITS * |sign|
    ensures |r| == |sign|
  {
    OrBoundWord(sign[i / SIGN_WORD_BITS], i % SIGN_WORD_BITS);
    sign[i / SIGN_WORD_BITS := Or(sign[i / SIGN_WORD_BITS], ShiftOne(i % SIGN_WORD_BITS))]
  }

  lemma {:induction false} OrBoundWord(w: Word, k: nat)
    requires k < SIGN_WORD_BITS
    ensures Or(w, ShiftOne(k)) < 0x1_0000
  {
    ShiftOneMono(k, SIGN_WORD_BITS);
    Pow16();
    OrBound(w, ShiftOne(k), SIGN_WORD_BITS);
  }

  /** SETBIT adds one position to the set of set bits and clears none. */
  lemma {:induction false} SetBitBits(sign: Signature, i: nat)
    requires i < SIGN_WORD_BITS * |sign|
    ensures Bits(SetBit(sign, i)) == Bits(sign) + {i}
  {
    var r := SetBit(sign, i);
    forall j: nat | j < SIGN_WORD_BITS * |sign| ensures Bit(r, j) <==> Bit(sign, j) || i == j {
      if j / SIGN_WORD_BITS == i / SIGN_WORD_BITS {
        OrDigit(sign[i / SIGN_WORD_BITS], ShiftOne(i % SIGN_WORD_BITS), j % SIGN_WORD_BITS);
        ShiftOneDigit(i % SIGN_WORD_BITS, j % SIGN_WORD_BITS);
      }
    }
  }

  /** What the scan's word loop decides: every word of the wanted signature is covered. */
  predicate WordsCover(stored: Signature, wanted: Signature)
    requires |stored| == |wanted|
  {
    forall i | 0 <= i < |wanted| :: And(stored[i], wanted[i]) == wanted[i]
  }

  /** Comparing word by word decides set inclusion of the two signatures. */
  lemma {:induction false} WordsCoverIsSubset(stored: Signature, wanted: Signature)
    requires |stored| == |wanted|
    ensures WordsCover(stored, wanted) <==> Bits(wanted) <= Bits(stored)
  {
    if WordsCover(stored, wanted) {
      forall i: nat | i in Bits(wanted) ensures i in Bits(stored) {
        assert Bit(wanted, i);
        AndDigit(stored[i / SIGN_WORD_BITS], wanted[i / SIGN_WORD_BITS], i % SIGN_WORD_BITS);
      }
    }
    if Bits(wanted) <= Bits(stored) {
      forall i | 0 <= i < |wanted| ensures And(stored[i], wanted[i]) == wanted[i] {
        forall k: nat | k < SIGN_WORD_BITS && Digit(wanted[i], k) ensures Digit(stored[i], k) {
          var b := SIGN_WORD_BITS * i + k;
          assert b / SIGN_WORD_BITS == i && b % SIGN_WORD_BITS == k;
          assert b in Bits(wanted);
        }
        CoversWord(stored[i], wanted[i]);
      }
    }
  }
}

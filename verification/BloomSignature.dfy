/** Signatures of rows and of search keys (blutils.c, blscan.c). */
module BloomSignature {
  import opened Wrappers
  import opened BloomRandom
  import opened BloomWords

  const INDEX_MAX_KEYS: nat := 32
  const MAX_BLOOM_WORDS: nat := 256
  const MAX_BLOOM_BITS: nat := 4095

  /** A heap tuple identifier. */
  datatype ItemPointer = ItemPointer(block: nat, offset: nat)

  datatype BloomTuple = BloomTuple(heapPtr: ItemPointer, sign: Signature)

  /** The options frozen in the metapage, after the signature length was converted to words. */
  datatype Options = Options(bloomLength: nat, bitSize: seq<nat>) {
    predicate Valid() {
      && 1 <= bloomLength <= MAX_BLOOM_WORDS
      && |bitSize| == INDEX_MAX_KEYS
      && forall i | 0 <= i < |bitSize| :: 1 <= bitSize[i] <= MAX_BLOOM_BITS
    }
  }

  /** The index columns of a heap row: the hash of each value, or None for a null. */
  type Row = r: seq<Option<UInt32>> | |r| <= INDEX_MAX_KEYS

  /** A scan key `column = value`, by the hash of its value; None is a null key. */
  datatype ScanKey = ScanKey(attno: nat, hash: Option<UInt32>)

  predicate ValidKeys(keys: seq<ScanKey>) {
    forall i | 0 <= i < |keys| :: keys[i].attno < INDEX_MAX_KEYS
  }

  /** The value drawn first for a column; it separates equal values of different columns. */
  function ColumnDraw(attno: nat): (d: UInt32)
    requires attno < INDEX_MAX_KEYS
  {
    SeedStateZero(attno);
    AdvanceNonZero(SeedState(attno));
    Advance(SeedState(attno)) - 1
  }

  /** The seed a value is spread from: a function of its column and its hash alone. */
  function ValueSeed(attno: nat, hash: UInt32): UInt32
    requires attno < INDEX_MAX_KEYS
  {
    Mix(hash, ColumnDraw(attno))
  }

  /** The position drawn k-th from a state; in C the remainder keeps the sign of the value. */
  function Position(opts: Options, s: int, k: nat): int
    requires opts.Valid()
  {
    CMod(StateAfter(s, k) - 1, opts.bloomLength * SIGN_WORD_BITS)
  }

  /** The positions a value occupies in a signature. */
  function ValueBits(opts: Options, attno: nat, hash: UInt32): set<nat>
    requires opts.Valid() && attno < INDEX_MAX_KEYS
  {
    DrawnBits(opts, SeedState(ValueSeed(attno, hash)), opts.bitSize[attno])
  }

  /** The positions among the first n draws from a state. */
  function DrawnBits(opts: Options, s: int, n: nat): set<nat>
    requires opts.Valid()
  {
    if n == 0 then {}
    else DrawnBits(opts, s, n - 1) + (if Position(opts, s, n) >= 0 then {Position(opts, s, n) as nat} else {})
  }

  /** Two columns' values that hash alike are spread from different seeds. */
  lemma {:induction false} ColumnsSeparate(a: nat, b: nat, hash: UInt32)
    requires a < INDEX_MAX_KEYS && b < INDEX_MAX_KEYS && a != b
    ensures ValueSeed(a, hash) != ValueSeed(b, hash)
  {
    XorCommutes(hash, ColumnDraw(a));
    XorCommutes(hash, ColumnDraw(b));
    XorInvolutive(ColumnDraw(a), hash);
    XorInvolutive(ColumnDraw(b), hash);
    ColumnDrawValue(a);
    ColumnDrawValue(b);
  }

  lemma {:induction false} ColumnDrawValue(attno: nat)
    requires attno < INDEX_MAX_KEYS
    ensures ColumnDraw(attno) == 16807 * (attno + 1) - 1
  {
  }

  lemma {:induction false} XorCommutes(a: nat, b: nat)
    ensures Xor(a, b) == Xor(b, a)
    decreases a + b
  {
    if a != 0 && b != 0 { XorCommutes(a / 2, b / 2); }
  }

  lemma {:induction false} XorSolve(a: nat, b: nat, c: nat)
    ensures Xor(a, b) == c <==> a == Xor(c, b)
  {
    XorInvolutive(a, b);
    XorInvolutive(c, b);
  }

  /** The two hashes of a column that send the generator into its absorbing state. */
  lemma {:induction false} AbsorbingHashes(attno: nat, hash: UInt32)
    requires attno < INDEX_MAX_KEYS
    ensures SeedState(ValueSeed(attno, hash)) == 0 <==>
            hash == Mix(0xFFFF_FFFF, ColumnDraw(attno)) || hash == Mix(0x8000_0001, ColumnDraw(attno))
  {
    SeedStateZero(ValueSeed(attno, hash));
    XorSolve(hash, ColumnDraw(attno), 0xFFFF_FFFF);
    XorSolve(hash, ColumnDraw(attno), 0x8000_0001);
  }

  lemma {:induction false} PositionFromState(opts: Options, s: int, k: nat)
    requires opts.Valid() && -MODULUS < s < MODULUS && k > 0
    ensures s != 0 ==> 0 <= Position(opts, s, k) < opts.bloomLength * SIGN_WORD_BITS
    ensures s == 0 ==> Position(opts, s, k) == -1
  {
    DrawRange(s, k);
    CModOfDraw(StateAfter(s, k) - 1, opts.bloomLength * SIGN_WORD_BITS);
  }

  lemma {:induction false} CModOfDraw(v: int, width: nat)
    requires -1 <= v && width > 1
    ensures v >= 0 ==> 0 <= CMod(v, width) < width
    ensures v == -1 ==> CMod(v, width) == -1
  {
  }

  /** Every position drawn for a value lies inside the signature, except for exactly two hashes of
      each column; for those two, every position drawn is -1. */
  lemma {:induction false} PositionsInRange(opts: Options, attno: nat, hash: UInt32, k: nat)
    requires opts.Valid() && attno < INDEX_MAX_KEYS && k > 0
    ensures var p := Position(opts, SeedState(ValueSeed(attno, hash)), k);
            var draw := ColumnDraw(attno);
            && (0 <= p < opts.bloomLength * SIGN_WORD_BITS <==>
                hash != Mix(0xFFFF_FFFF, draw) && hash != Mix(0x8000_0001, draw))
            && (p < 0 ==> p == -1)
  {
    AbsorbingHashes(attno, hash);
    PositionFromState(opts, SeedState(ValueSeed(attno, hash)), k);
  }

  /** A value of the first column whose hash is 0xFFFFBE59 draws -1 every time, although the comments
      of myRand and mySrand promise draws in [0, 0x7ffffffd]. */
  lemma {:induction false} PositionOutside(opts: Options, k: nat)
    requires opts.Valid() && k > 0
    ensures Position(opts, SeedState(ValueSeed(0, 0xFFFF_BE59)), k) == -1
  {
    AbsorbedHash();
    AbsorbingHashes(0, 0xFFFF_BE59);
    PositionFromState(opts, SeedState(ValueSeed(0, 0xFFFF_BE59)), k);
  }

  /** Mixing with all ones complements. */
  lemma {:induction false} XorOnes(n: nat, ones: nat, y: nat)
    requires ones == ShiftOne(n) - 1 && y <= ones
    ensures Xor(ones, y) == ones - y
  {
    if n > 0 {
      var half := ShiftOne(n - 1) - 1;
      assert ones == 2 * half + 1;
      assert ones / 2 == half && ones % 2 == 1 && y == 2 * (y / 2) + y % 2;
      XorOnes(n - 1, half, y / 2);
      XorHalves(ones, y);
    }
  }

  /** 16806, the first draw of column 0, mixed with all ones. */
  lemma {:induction false} AbsorbedHash()
    ensures Mix(0xFFFF_FFFF, ColumnDraw(0)) == 0xFFFF_BE59
  {
    ColumnDrawValue(0);
    Pow32();
    XorOnes(32, 0xFFFF_FFFF, ColumnDraw(0));
  }

  /** The positions of the first n columns of a row; nulls contribute nothing. */
  function RowBits(opts: Options, row: Row, n: nat): set<nat>
    requires opts.Valid() && n <= |row|
  {
    if n == 0 then {}
    else RowBits(opts, row, n - 1) +
         (if row[n - 1].Some? then ValueBits(opts, n - 1, row[n - 1].value) else {})
  }

  /** t is the tuple the index stores for a row found at ptr. */
  ghost predicate Formed(opts: Options, ptr: ItemPointer, row: Row, t: BloomTuple)
    requires opts.Valid()
  {
    && t.heapPtr == ptr
    && |t.sign| == opts.bloomLength
    && Bits(t.sign) == RowBits(opts, row, |row|)
  }

  /** A signature is determined by its length and its bits. */
  lemma {:induction false} BitsDetermine(a: Signature, b: Signature)
    requires |a| == |b| && Bits(a) == Bits(b)
    ensures a == b
  {
    forall i | 0 <= i < |a| ensures a[i] == b[i] {
      forall k: nat | k < SIGN_WORD_BITS ensures Digit(a[i], k) <==> Digit(b[i], k) {
        var p := SIGN_WORD_BITS * i + k;
        assert p / SIGN_WORD_BITS == i && p % SIGN_WORD_BITS == k;
        assert Bit(a, p) <==> p in Bits(a);
        assert Bit(b, p) <==> p in Bits(b);
      }
      Pow16();
      DigitsDetermine(a[i], b[i], SIGN_WORD_BITS);
    }
  }

  /** The tuple of a row is unique: it does not depend on the state the generator was found in. */
  lemma {:induction false} FormedUnique(opts: Options, ptr: ItemPointer, row: Row, t: BloomTuple, t': BloomTuple)
    requires opts.Valid() && Formed(opts, ptr, row, t) && Formed(opts, ptr, row, t')
    ensures t == t'
  {
    BitsDetermine(t.sign, t'.sign);
  }

  /** The positions of the first n search keys. */
  function KeyBits(opts: Options, keys: seq<ScanKey>, n: nat): set<nat>
    requires opts.Valid() && ValidKeys(keys) && n <= |keys|
    requires forall i | 0 <= i < n :: keys[i].hash.Some?
  {
    if n == 0 then {}
    else KeyBits(opts, keys, n - 1) + ValueBits(opts, keys[n - 1].attno, keys[n - 1].hash.value)
  }

  /** A row answers a search when each key's column holds a value hashing like the key. */
  predicate Answers(row: Row, keys: seq<ScanKey>) {
    forall i | 0 <= i < |keys| ::
      keys[i].hash.Some? && keys[i].attno < |row| && row[keys[i].attno] == keys[i].hash
  }

  lemma {:induction false} ColumnBitsInRow(opts: Options, row: Row, i: nat, n: nat)
    requires opts.Valid() && i < n <= |row| && row[i].Some?
    ensures ValueBits(opts, i, row[i].value) <= RowBits(opts, row, n)
  {
    if i < n - 1 { ColumnBitsInRow(opts, row, i, n - 1); }
  }

  /** The signature of a search is included in the signature of every row that answers it. */
  lemma {:induction false} AnswerBitsIncluded(opts: Options, row: Row, keys: seq<ScanKey>, n: nat)
    requires opts.Valid() && ValidKeys(keys) && n <= |keys| && Answers(row, keys)
    ensures KeyBits(opts, keys, n) <= RowBits(opts, row, |row|)
  {
    if n > 0 {
      AnswerBitsIncluded(opts, row, keys, n - 1);
      ColumnBitsInRow(opts, row, keys[n - 1].attno, |row|);
    }
  }

  /** The SETBIT macro. */
  method SetBitIn(sign: array<Word>, nBit: nat)
    requires nBit < sign.Length * SIGN_WORD_BITS
    modifies sign
    ensures Bits(sign[..]) == old(Bits(sign[..])) + {nBit}
  {
    SetBitBits(sign[..], nBit);
    ghost var was := sign[..];
    OrBoundWord(sign[nBit / SIGN_WORD_BITS], nBit % SIGN_WORD_BITS);
    sign[nBit / SIGN_WORD_BITS] := Or(sign[nBit / SIGN_WORD_BITS], ShiftOne(nBit % SIGN_WORD_BITS));
    assert sign[..] == SetBit(was, nBit);
  }

  /** The two seedings at the start of signValue: by column, then by hash and the column's first draw. */
  method SeedForValue(gen: Generator, hash: UInt32, attno: nat)
    requires attno < INDEX_MAX_KEYS
    modifies gen
    ensures gen.next as int == SeedState(ValueSeed(attno, hash))
  {
    gen.MySrand(attno);
    SeedStateZero(attno);
    AdvanceNonZero(SeedState(attno));
    var first := gen.MyRand();
    assert first as int == ColumnDraw(attno);
    gen.MySrand(Mix(hash, first as int));
  }

  /** signValue: adds the bits of one value to a signature in place. A negative position makes SETBIT
      shift by a negative count, which C leaves undefined; no bit is set for it here. */
  method SignValue(gen: Generator, opts: Options, sign: array<Word>, hash: UInt32, attno: nat)
    requires opts.Valid() && attno < INDEX_MAX_KEYS && sign.Length == opts.bloomLength
    modifies gen, sign
    ensures Bits(sign[..]) == old(Bits(sign[..])) + ValueBits(opts, attno, hash)
  {
    SeedForValue(gen, hash, attno);
    ghost var s := SeedState(ValueSeed(attno, hash));
    ghost var before := Bits(sign[..]);
    var j := 0;
    while j < opts.bitSize[attno]
      invariant 0 <= j <= opts.bitSize[attno]
      invariant gen.next as int == StateAfter(s, j)
      invariant Bits(sign[..]) == before + DrawnBits(opts, s, j)
    {
      var r := gen.MyRand();
      assert gen.next as int == StateAfter(s, j + 1);
      var nBit := CMod(r as int, opts.bloomLength * SIGN_WORD_BITS);
      assert nBit == Position(opts, s, j + 1);
      if nBit >= 0 {
        SetBitIn(sign, nBit);
      }
      j := j + 1;
    }
  }

  /** BloomFormTuple. Whatever state another value left in the generator, the tuple is the same. */
  method FormTuple(gen: Generator, opts: Options, ptr: ItemPointer, row: Row) returns (t: BloomTuple)
    requires opts.Valid()
    modifies gen
    ensures Formed(opts, ptr, row, t)
  {
    var sign := new Word[opts.bloomLength](_ => 0);
    assert sign[..] == ZeroSignature(opts.bloomLength);
    ZeroSignatureBits(opts.bloomLength);
    for i := 0 to |row|
      invariant Bits(sign[..]) == RowBits(opts, row, i)
    {
      if row[i].Some? {
        SignValue(gen, opts, sign, row[i].value, i);
      }
    }
    t := BloomTuple(ptr, sign[..]);
  }

  /** The signature part of blgetbitmap: None when a key is null, so that nothing can match. */
  method SearchSignature(gen: Generator, opts: Options, keys: seq<ScanKey>) returns (r: Option<Signature>)
    requires opts.Valid() && ValidKeys(keys)
    modifies gen
    ensures r.None? <==> exists i | 0 <= i < |keys| :: keys[i].hash.None?
    ensures r.Some? ==> |r.value| == opts.bloomLength && Bits(r.value) == KeyBits(opts, keys, |keys|)
  {
    var sign := new Word[opts.bloomLength](_ => 0);
    assert sign[..] == ZeroSignature(opts.bloomLength);
    ZeroSignatureBits(opts.bloomLength);
    for i := 0 to |keys|
      invariant forall j | 0 <= j < i :: keys[j].hash.Some?
      invariant Bits(sign[..]) == KeyBits(opts, keys, i)
    {
      if keys[i].hash.None? {
        return None;
      }
      SignValue(gen, opts, sign, keys[i].hash.value, keys[i].attno);
      KeyBitsNext(opts, keys, i);
    }
    r := Some(sign[..]);
  }

  lemma {:induction false} KeyBitsNext(opts: Options, keys: seq<ScanKey>, n: nat)
    requires opts.Valid() && ValidKeys(keys) && n < |keys| && forall i | 0 <= i <= n :: keys[i].hash.Some?
    ensures KeyBits(opts, keys, n + 1) == KeyBits(opts, keys, n) + ValueBits(opts, keys[n].attno, keys[n].hash.value)
  {
  }

  /** The word loop of blgetbitmap over one stored tuple. */
  method Matches(stored: Signature, wanted: Signature) returns (res: bool)
    requires |stored| == |wanted|
    ensures res <==> Bits(wanted) <= Bits(stored)
  {
    WordsCoverIsSubset(stored, wanted);
    res := true;
    var i := 0;
    while i < |wanted|
      invariant 0 <= i <= |wanted| && res
      invariant forall j | 0 <= j < i :: And(stored[j], wanted[j]) == wanted[j]
    {
      if And(stored[i], wanted[i]) != wanted[i] {
        res := false;
        break;
      }
      i := i + 1;
    }
  }
}

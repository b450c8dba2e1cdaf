/** How a variable length key lies in memory (btree_utils_var.c): a varlena whose data is the lower
    bound's varlena and, at the next multiple of four, the upper bound's; a leaf key stops after the
    first. Varlena headers are four bytes, little endian, holding the total size times four. */
module GbtLayout {
  import opened Wrappers
  import opened Lex
  import opened GbtVarKey

  const VARHDRSZ: nat := 4

  /** Sizes fit the 30 bits of a header. */
  const MAX_VARSIZE: nat := 0x4000_0000

  /** SET_VARSIZE. */
  function Header(size: nat): (h: Bytes)
    requires size < MAX_VARSIZE
    ensures |h| == VARHDRSZ
  {
    var n := 4 * size;
    [n % 256, n / 256 % 256, n / 65536 % 256, n / 16777216]
  }

  /** VARSIZE of the varlena at an offset. */
  function VarSize(m: Bytes, at: nat): nat
    requires at + VARHDRSZ <= |m|
  {
    LittleEndian(m[at], m[at + 1], m[at + 2], m[at + 3]) / 4
  }

  function LittleEndian(b0: nat, b1: nat, b2: nat, b3: nat): nat {
    b0 + 256 * b1 + 65536 * b2 + 16777216 * b3
  }

  function IntAlign(n: nat): (r: nat)
    ensures n <= r < n + 4
  {
    (n + 3) / 4 * 4
  }

  lemma {:induction false} HeaderReads(size: nat, m: Bytes, at: nat)
    requires size < MAX_VARSIZE && at + VARHDRSZ <= |m| && m[at..at + VARHDRSZ] == Header(size)
    ensures VarSize(m, at) == size
  {
    var h := Header(size);
    assert m[at] == h[0] && m[at + 1] == h[1] && m[at + 2] == h[2] && m[at + 3] == h[3] by {
      var w := m[at..at + VARHDRSZ];
      assert w[0] == m[at] && w[1] == m[at + 1] && w[2] == m[at + 2] && w[3] == m[at + 3];
    }
    Digits(4 * size);
  }

  lemma {:induction false} Digits(n: nat)
    ensures n == LittleEndian(n % 256, n / 256 % 256, n / 65536 % 256, n / 16777216)
  {
    assert n / 256 / 256 == n / 65536;
    assert n / 65536 / 256 == n / 16777216;
  }

  /** A bytea value as it is stored. */
  function Varlena(data: Bytes): (v: Bytes)
    requires |data| + VARHDRSZ < MAX_VARSIZE
    ensures |v| == |data| + VARHDRSZ
  {
    Header(|data| + VARHDRSZ) + data
  }

  function Zeros(n: nat): Bytes {
    seq(n, _ => 0)
  }

  /** Both bounds fit into one varlena. */
  predicate Fits(k: VarKey) {
    IntAlign(|k.lower| + VARHDRSZ) + |k.upper| + 2 * VARHDRSZ < MAX_VARSIZE
  }

  /** gbt_var_key_from_datum. */
  function FromDatum(x: Bytes): Bytes
    requires |x| + 2 * VARHDRSZ < MAX_VARSIZE
  {
    Header(|x| + 2 * VARHDRSZ) + Varlena(x)
  }

  /** gbt_var_key_copy: the gap before the upper bound is zero. */
  function KeyCopy(k: VarKey): Bytes
    requires Fits(k)
  {
    var l := Varlena(k.lower);
    Header(IntAlign(|l|) + |k.upper| + 2 * VARHDRSZ) + l + Zeros(IntAlign(|l|) - |l|) + Varlena(k.upper)
  }

  /** The bytes of the varlena at an offset; None when it does not lie within the memory. */
  function DataAt(m: Bytes, at: nat): Option<Bytes> {
    if at + VARHDRSZ > |m| then None
    else
      var size := VarSize(m, at);
      if size < VARHDRSZ || at + size > |m| then None else Some(m[at + VARHDRSZ..at + size])
  }

  /** gbt_var_key_readable. */
  function Readable(m: Bytes): Option<VarKey> {
    if |m| < 2 * VARHDRSZ then None
    else
      var lowersize := VarSize(m, VARHDRSZ);
      var lower := DataAt(m, VARHDRSZ);
      var upper := if VarSize(m, 0) > VARHDRSZ + lowersize then DataAt(m, VARHDRSZ + IntAlign(lowersize)) else lower;
      if lower.None? || upper.None? then None else Some(VarKey(lower.value, upper.value))
  }

  lemma {:induction false} DataReads(m: Bytes, at: nat, data: Bytes)
    requires |data| + VARHDRSZ < MAX_VARSIZE && at + |data| + VARHDRSZ <= |m|
    requires m[at..at + |data| + VARHDRSZ] == Varlena(data)
    ensures VarSize(m, at) == |data| + VARHDRSZ && DataAt(m, at) == Some(data)
  {
    var v := Varlena(data);
    assert m[at..at + VARHDRSZ] == m[at..at + |v|][..VARHDRSZ] == v[..VARHDRSZ] == Header(|v|);
    HeaderReads(|v|, m, at);
    assert m[at + VARHDRSZ..at + |v|] == m[at..at + |v|][VARHDRSZ..] == v[VARHDRSZ..] == data;
  }

  /** Reading a leaf key gives its value as both bounds. */
  lemma {:induction false} LeafRoundTrip(x: Bytes)
    requires |x| + 2 * VARHDRSZ < MAX_VARSIZE
    ensures Readable(FromDatum(x)) == Some(LeafKey(x))
  {
    var m := FromDatum(x);
    assert m[0..VARHDRSZ] == Header(|x| + 2 * VARHDRSZ);
    HeaderReads(|x| + 2 * VARHDRSZ, m, 0);
    assert m[VARHDRSZ..VARHDRSZ + |x| + VARHDRSZ] == Varlena(x);
    DataReads(m, VARHDRSZ, x);
  }

  /** Where the pieces of an inner key lie. */
  lemma {:induction false} KeyPieces(k: VarKey)
    requires Fits(k)
    ensures var m, at := KeyCopy(k), VARHDRSZ + IntAlign(|k.lower| + VARHDRSZ);
            && |m| == at + |k.upper| + VARHDRSZ
            && m[0..VARHDRSZ] == Header(|m|)
            && m[VARHDRSZ..VARHDRSZ + |k.lower| + VARHDRSZ] == Varlena(k.lower)
            && m[at..at + |k.upper| + VARHDRSZ] == Varlena(k.upper)
  {
    var l := Varlena(k.lower);
    Slices(Header(IntAlign(|l|) + |k.upper| + 2 * VARHDRSZ), l, Zeros(IntAlign(|l|) - |l|), Varlena(k.upper));
  }

  lemma {:induction false} PiecesRead(m: Bytes, lower: Bytes, upper: Bytes, at: nat)
    requires |m| >= 2 * VARHDRSZ && at == VARHDRSZ + IntAlign(|lower| + VARHDRSZ)
    requires VarSize(m, 0) == |m| == at + |upper| + VARHDRSZ
    requires VarSize(m, VARHDRSZ) == |lower| + VARHDRSZ && DataAt(m, VARHDRSZ) == Some(lower)
    requires DataAt(m, at) == Some(upper)
    ensures Readable(m) == Some(VarKey(lower, upper))
  {
  }

  /** Reading an inner key gives back both bounds, also when they are equal, empty or unaligned. */
  lemma {:induction false} KeyRoundTrip(k: VarKey)
    requires Fits(k)
    ensures Readable(KeyCopy(k)) == Some(k)
  {
    var m, at := KeyCopy(k), VARHDRSZ + IntAlign(|k.lower| + VARHDRSZ);
    KeyPieces(k);
    HeaderReads(|m|, m, 0);
    DataReads(m, VARHDRSZ, k.lower);
    DataReads(m, at, k.upper);
    PiecesRead(m, k.lower, k.upper, at);
  }

  lemma {:induction false} Slices(h: Bytes, l: Bytes, gap: Bytes, u: Bytes)
    ensures var m := h + l + gap + u;
            && m[0..|h|] == h && m[|h|..|h| + |l|] == l
            && m[|h| + |l| + |gap|..|h| + |l| + |gap| + |u|] == u
  {
  }

  /** A key written piece by piece: its header, and each bound's header and data. */
  function Assemble(lower: Bytes, upper: Bytes): Bytes
    requires Fits(VarKey(lower, upper))
  {
    Header(2 * VARHDRSZ + IntAlign(|lower| + VARHDRSZ) + |upper|)
    + Header(|lower| + VARHDRSZ) + lower + Zeros(IntAlign(|lower| + VARHDRSZ) - |lower| - VARHDRSZ)
    + Header(|upper| + VARHDRSZ) + upper
  }

  lemma {:induction false} AssembleIsCopy(k: VarKey)
    requires Fits(k)
    ensures Assemble(k.lower, k.upper) == KeyCopy(k)
  {
    Regroup(Header(2 * VARHDRSZ + IntAlign(|k.lower| + VARHDRSZ) + |k.upper|), Header(|k.lower| + VARHDRSZ), k.lower,
            Zeros(IntAlign(|k.lower| + VARHDRSZ) - |k.lower| - VARHDRSZ), Header(|k.upper| + VARHDRSZ), k.upper);
  }

  lemma {:induction false} Regroup(h: Bytes, h1: Bytes, d1: Bytes, gap: Bytes, h2: Bytes, d2: Bytes)
    ensures h + h1 + d1 + gap + h2 + d2 == h + (h1 + d1) + gap + (h2 + d2)
  {
  }

  function Shorter(a: nat, b: nat): nat {
    if a < b then a else b
  }

  lemma {:induction false} TruncateFits(k: VarKey, cpfLength: nat)
    requires Fits(k)
    ensures Fits(NodeTruncate(k, cpfLength))
  {
  }

  lemma {:induction false} CutStored(data: Bytes, n: nat)
    requires |data| + VARHDRSZ < MAX_VARSIZE
    ensures Varlena(data)[VARHDRSZ..Shorter(|data|, n) + VARHDRSZ] == Cut(data, n)
  {
  }

  /** gbt_var_node_truncate on the stored form: it copies both varlenas cut short, headers included,
      and then writes their headers anew. */
  function TruncateStored(k: VarKey, cpfLength: nat): Bytes
    requires Fits(k)
  {
    var len1 := Shorter(|k.lower|, cpfLength + 1);
    var len2 := Shorter(|k.upper|, cpfLength + 1);
    TruncateFits(k, cpfLength);
    CutStored(k.lower, cpfLength + 1);
    CutStored(k.upper, cpfLength + 1);
    Assemble(Varlena(k.lower)[VARHDRSZ..len1 + VARHDRSZ], Varlena(k.upper)[VARHDRSZ..len2 + VARHDRSZ])
  }

  /** It stores the truncated key, in the form in which gbt_var_key_copy would. */
  lemma {:induction false} TruncateStores(k: VarKey, cpfLength: nat)
    requires Fits(k)
    ensures Fits(NodeTruncate(k, cpfLength)) && TruncateStored(k, cpfLength) == KeyCopy(NodeTruncate(k, cpfLength))
    ensures Readable(TruncateStored(k, cpfLength)) == Some(NodeTruncate(k, cpfLength))
  {
    var cut := NodeTruncate(k, cpfLength);
    TruncateFits(k, cpfLength);
    assert TruncateStored(k, cpfLength) == KeyCopy(cut) by {
      CutStored(k.lower, cpfLength + 1);
      CutStored(k.upper, cpfLength + 1);
      AssembleIsCopy(cut);
    }
    KeyRoundTrip(cut);
  }
}

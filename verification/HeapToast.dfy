/** The check of a toasted value's chunks (verify_heapam.c). */
module HeapToast {
  import opened Wrappers

  const TOAST_MAX_CHUNK_SIZE: int := 1996
  const UINT32_MODULUS: int := 0x1_0000_0000

  /** VARATT_EXTERNAL_GET_EXTSIZE: 30 bits of the toast pointer. */
  type ExtSize = n: nat | n < 0x4000_0000

  /** The cast to int32. */
  function Int32(n: int): int {
    (n + UINT32_MODULUS / 2) % UINT32_MODULUS - UINT32_MODULUS / 2
  }

  /** What a chunk's data turns out to be, and its size if it has one. */
  datatype Varlena = Plain(size: int) | Short(size: int) | BadHeader

  /** A toast tuple; None is a null field. */
  datatype Chunk = Chunk(seqNo: Option<int>, data: Option<Varlena>)

  /** (extsize - 1) / TOAST_MAX_CHUNK_SIZE in uint32 arithmetic. */
  function LastChunk(extsize: ExtSize): nat {
    (extsize - 1) % UINT32_MODULUS / TOAST_MAX_CHUNK_SIZE
  }

  /** The size that chunk number n should have. */
  function ExpectedSize(n: int, extsize: ExtSize): int {
    if n < LastChunk(extsize) then TOAST_MAX_CHUNK_SIZE
    else Int32(extsize - LastChunk(extsize) * TOAST_MAX_CHUNK_SIZE)
  }

  /** Chunk number n is as it should be. */
  predicate GoodChunk(c: Chunk, n: int, extsize: ExtSize) {
    && c.seqNo == Some(n) && n <= LastChunk(extsize)
    && c.data.Some? && !c.data.value.BadHeader? && c.data.value.size == ExpectedSize(n, extsize)
  }

  /** The chunks are numbered 0 to the last in order, and full but for the last. */
  predicate WellFormed(chunks: seq<Chunk>, extsize: ExtSize) {
    && |chunks| == LastChunk(extsize) + 1
    && forall i | 0 <= i < |chunks| :: GoodChunk(chunks[i], i, extsize)
  }

  /** check_toast_tuple: how many problems it reports, and the number to expect next. */
  method CheckToastTuple(c: Chunk, expected: int, extsize: ExtSize) returns (reports: nat, expected': int)
    ensures reports == 0 <==> GoodChunk(c, expected, extsize)
    ensures reports == 0 ==> expected' == expected + 1
  {
    reports, expected' := 0, expected;
    var lastChunkSeq := LastChunk(extsize);
    if c.seqNo.None? {
      return 1, expected;
    }
    var chunkSeq := c.seqNo.value;
    if chunkSeq != expected {
      reports := reports + 1;
    }
    expected' := chunkSeq + 1;
    if c.data.None? || c.data.value.BadHeader? {
      reports := reports + 1;
      return;
    }
    var chunksize := c.data.value.size;
    if chunkSeq > lastChunkSeq {
      reports := reports + 1;
      return;
    }
    var expectedSize :=
      if chunkSeq < lastChunkSeq then TOAST_MAX_CHUNK_SIZE else Int32(extsize - lastChunkSeq * TOAST_MAX_CHUNK_SIZE);
    if chunksize != expectedSize {
      reports := reports + 1;
    }
  }

  /** check_toasted_attribute over the chunks that its index scan returns: it is silent if and only if they
      are well formed. */
  method CheckToastedAttribute(chunks: seq<Chunk>, extsize: ExtSize) returns (reports: nat)
    ensures reports == 0 <==> WellFormed(chunks, extsize)
  {
    var lastChunkSeq := LastChunk(extsize);
    var expected := 0;
    var found := false;
    reports := 0;
    var i := 0;
    while i < |chunks|
      invariant 0 <= i <= |chunks| && (found <==> i > 0)
      invariant reports == 0 <==> forall j | 0 <= j < i :: GoodChunk(chunks[j], j, extsize)
      invariant reports == 0 ==> expected == i
    {
      found := true;
      var more;
      ghost var was := expected;
      more, expected := CheckToastTuple(chunks[i], expected, extsize);
      assert reports == 0 ==> was == i;
      reports := reports + more;
      i := i + 1;
    }
    if !found {
      reports := reports + 1;
    } else if expected <= lastChunkSeq {
      reports := reports + 1;
    }
    if reports == 0 {
      assert GoodChunk(chunks[|chunks| - 1], |chunks| - 1, extsize);
    }
  }

  function TotalSize(chunks: seq<Chunk>, n: nat): int
    requires n <= |chunks| && forall i | 0 <= i < |chunks| :: chunks[i].data.Some? && !chunks[i].data.value.BadHeader?
  {
    if n == 0 then 0 else TotalSize(chunks, n - 1) + chunks[n - 1].data.value.size
  }

  /** So silence means that the sizes add up to what the toast pointer says. */
  lemma {:induction false} SizesAddUp(chunks: seq<Chunk>, extsize: ExtSize)
    requires 1 <= extsize && WellFormed(chunks, extsize)
    ensures forall i | 0 <= i < |chunks| :: chunks[i].data.Some? && !chunks[i].data.value.BadHeader?
    ensures TotalSize(chunks, |chunks|) == extsize
    ensures 1 <= chunks[|chunks| - 1].data.value.size <= TOAST_MAX_CHUNK_SIZE
  {
    forall i | 0 <= i < |chunks| ensures chunks[i].data.Some? && !chunks[i].data.value.BadHeader? {
      assert GoodChunk(chunks[i], i, extsize);
    }
    var last := LastChunk(extsize);
    FullSizes(chunks, extsize, last);
    assert GoodChunk(chunks[last], last, extsize);
  }

  lemma {:induction false} FullSizes(chunks: seq<Chunk>, extsize: ExtSize, n: nat)
    requires WellFormed(chunks, extsize) && n < |chunks|
    requires forall i | 0 <= i < |chunks| :: chunks[i].data.Some? && !chunks[i].data.value.BadHeader?
    ensures TotalSize(chunks, n) == n * TOAST_MAX_CHUNK_SIZE
  {
    if n > 0 {
      FullSizes(chunks, extsize, n - 1);
      assert GoodChunk(chunks[n - 1], n - 1, extsize);
    }
  }

  /** A size of zero wraps: the check then asks for two million chunks and more, the last of 444 bytes. */
  lemma {:induction false} ZeroSizeWraps()
    ensures LastChunk(0) == 2151787 && ExpectedSize(2151787, 0) == 444 && !WellFormed([], 0)
  {
  }
}

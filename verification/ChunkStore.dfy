/** File contents kept as 4096-byte chunk rows, against the flat byte vector of the
    in-memory reference file. */
module ChunkStore {
  import opened Wrappers

  newtype u8 = x: int | 0 <= x < 256

  type Bytes = seq<u8>

  /** The `fs_data` rows of one inode, keyed by chunk index. */
  type Chunks = map<nat, Bytes>

  const CHUNK_SIZE: nat := 4096
  const MAX_FILE_SIZE: nat := 100 * 1024 * 1024

  /** `OutOfRange` is the slice bounds failure of reading past a stored chunk's end. */
  datatype VfsError = NotFound | InvalidPath | OutOfRange

  function Min(a: int, b: int): int {
    if a <= b then a else b
  }

  function Max(a: int, b: int): int {
    if a <= b then b else a
  }

  function Zeros(n: nat): (r: Bytes)
    ensures |r| == n && forall i | 0 <= i < n :: r[i] == 0
  {
    seq(n, _ => 0)
  }

  // ---- The flat reference file ----

  function MemRead(d: Bytes, offset: nat, n: nat): Bytes {
    d[Min(offset, |d|)..Min(offset + n, |d|)]
  }

  function MemResize(d: Bytes, n: nat): Bytes {
    if n <= |d| then d[..n] else d + Zeros(n - |d|)
  }

  function MemWrite(d: Bytes, offset: nat, data: Bytes): (r: Bytes) {
    var wide := if offset + |data| > |d| then MemResize(d, offset + |data|) else d;
    wide[..offset] + data + wide[offset + |data|..]
  }

  // ---- What a set of chunk rows means ----

  function ByteAt(c: Chunks, p: nat): u8 {
    if p / CHUNK_SIZE in c && p % CHUNK_SIZE < |c[p / CHUNK_SIZE]|
    then c[p / CHUNK_SIZE][p % CHUNK_SIZE] else 0
  }

  function Flat(c: Chunks, size: nat): (d: Bytes)
    ensures |d| == size
  {
    seq(size, p requires 0 <= p => ByteAt(c, p))
  }

  /** Rows hold at least one byte, at most a chunk, and nothing past the recorded size. */
  ghost predicate ValidStore(c: Chunks, size: nat) {
    forall k | k in c :: 0 < |c[k]| <= CHUNK_SIZE && k * CHUNK_SIZE + |c[k]| <= size
  }

  /** Every chunk below the size is stored, and all but the last are full. */
  ghost predicate Packed(c: Chunks, size: nat) {
    (forall k: nat :: k in c <==> k * CHUNK_SIZE < size)
    && forall k | k in c :: |c[k]| == Min(CHUNK_SIZE, size - k * CHUNK_SIZE)
  }

  lemma Locate(k: nat, j: nat)
    requires j < CHUNK_SIZE
    ensures (k * CHUNK_SIZE + j) / CHUNK_SIZE == k && (k * CHUNK_SIZE + j) % CHUNK_SIZE == j
  {
  }

  lemma StoredByte(c: Chunks, k: nat, j: nat)
    requires k in c && j < |c[k]| <= CHUNK_SIZE
    ensures ByteAt(c, k * CHUNK_SIZE + j) == c[k][j]
  {
    Locate(k, j);
  }

  // ---- Writing ----

  predicate Touches(k: nat, offset: nat, n: nat) {
    offset < (k + 1) * CHUNK_SIZE && k * CHUNK_SIZE < offset + n && n > 0
  }

  function ChunkLength(c: Chunks, k: nat): nat {
    if k in c then |c[k]| else 0
  }

  /** Row `k` after writing `data` at `offset` over it: grown only as far as the data reaches. */
  function WrittenChunk(c: Chunks, offset: nat, data: Bytes, k: nat): Bytes
    requires Touches(k, offset, |data|)
  {
    seq(Max(ChunkLength(c, k), Min(CHUNK_SIZE, offset + |data| - k * CHUNK_SIZE)),
        j requires 0 <= j =>
          var p := k * CHUNK_SIZE + j;
          if offset <= p < offset + |data| then data[p - offset]
          else if k in c && j < |c[k]| then c[k][j] else 0)
  }

  function Written(c: Chunks, offset: nat, data: Bytes): Chunks {
    map k | k in c.Keys + (set i: nat | i < offset + |data| && Touches(i, offset, |data|))
      :: if Touches(k, offset, |data|) then WrittenChunk(c, offset, data, k) else c[k]
  }

  lemma WrittenKeys(c: Chunks, offset: nat, data: Bytes, k: nat)
    ensures k in Written(c, offset, data) <==> k in c || Touches(k, offset, |data|)
  {
  }

  lemma WrittenByteInChunk(c: Chunks, offset: nat, data: Bytes, k: nat, j: nat)
    requires k in c ==> |c[k]| <= CHUNK_SIZE
    requires j < CHUNK_SIZE && Touches(k, offset, |data|)
    ensures
      var p, w := k * CHUNK_SIZE + j, WrittenChunk(c, offset, data, k);
      (if j < |w| then w[j] else 0) ==
      if offset <= p < offset + |data| then data[p - offset] else if j < ChunkLength(c, k) then c[k][j] else 0
  {
  }

  lemma TouchedByByte(k: nat, j: nat, offset: nat, n: nat)
    requires j < CHUNK_SIZE && offset <= k * CHUNK_SIZE + j < offset + n
    ensures Touches(k, offset, n)
  {
  }

  lemma WrittenByteAt(c: Chunks, offset: nat, data: Bytes, k: nat, j: nat)
    requires k in c ==> |c[k]| <= CHUNK_SIZE
    requires j < CHUNK_SIZE
    ensures
      var p, w := k * CHUNK_SIZE + j, Written(c, offset, data);
      (if j < ChunkLength(w, k) then w[k][j] else 0)
      == if offset <= p < offset + |data| then data[p - offset] else if j < ChunkLength(c, k) then c[k][j] else 0
  {
    WrittenKeys(c, offset, data, k);
    if Touches(k, offset, |data|) {
      WrittenByteInChunk(c, offset, data, k, j);
    } else if offset <= k * CHUNK_SIZE + j < offset + |data| {
      TouchedByByte(k, j, offset, |data|);
    }
  }

  lemma ByteIn(c: Chunks, p: nat)
    ensures ByteAt(c, p) == if p % CHUNK_SIZE < ChunkLength(c, p / CHUNK_SIZE) then c[p / CHUNK_SIZE][p % CHUNK_SIZE]
            else 0
  {
  }

  lemma WrittenBytes(c: Chunks, offset: nat, data: Bytes, p: nat)
    requires forall k | k in c :: |c[k]| <= CHUNK_SIZE
    ensures ByteAt(Written(c, offset, data), p) ==
            if offset <= p < offset + |data| then data[p - offset] else ByteAt(c, p)
  {
    ByteIn(c, p);
    ByteIn(Written(c, offset, data), p);
    WrittenByteAt(c, offset, data, p / CHUNK_SIZE, p % CHUNK_SIZE);
  }

  function WrittenSize(size: nat, offset: nat, data: Bytes): nat {
    if data == [] then size else Max(size, offset + |data|)
  }

  lemma MemWriteAt(d: Bytes, offset: nat, data: Bytes)
    ensures |MemWrite(d, offset, data)| == Max(|d|, offset + |data|)
    ensures forall p: nat | p < |MemWrite(d, offset, data)| ::
              MemWrite(d, offset, data)[p]
              == if offset <= p < offset + |data| then data[p - offset] else if p < |d| then d[p] else 0
  {
  }

  lemma WrittenIsValid(c: Chunks, size: nat, offset: nat, data: Bytes)
    requires ValidStore(c, size) && data != []
    ensures ValidStore(Written(c, offset, data), WrittenSize(size, offset, data))
  {
    var c', size' := Written(c, offset, data), WrittenSize(size, offset, data);
    forall k | k in c'
      ensures 0 < |c'[k]| <= CHUNK_SIZE && k * CHUNK_SIZE + |c'[k]| <= size'
    {
      WrittenKeys(c, offset, data, k);
    }
  }

  /** Whatever the rows look like, a write changes the flat contents as the reference does. */
  lemma WriteRefinesFlat(c: Chunks, size: nat, offset: nat, data: Bytes)
    requires ValidStore(c, size) && data != []
    ensures ValidStore(Written(c, offset, data), WrittenSize(size, offset, data))
    ensures Flat(Written(c, offset, data), WrittenSize(size, offset, data)) == MemWrite(Flat(c, size), offset, data)
  {
    WrittenIsValid(c, size, offset, data);
    MemWriteAt(Flat(c, size), offset, data);
    var size' := WrittenSize(size, offset, data);
    forall p: nat | p < size'
      ensures Flat(Written(c, offset, data), size')[p] == MemWrite(Flat(c, size), offset, data)[p]
    {
      WrittenBytes(c, offset, data, p);
      if p >= size {
        NothingPastSize(c, size, p);
      }
    }
  }

  lemma NothingPastSize(c: Chunks, size: nat, p: nat)
    requires ValidStore(c, size) && p >= size
    ensures ByteAt(c, p) == 0
  {
  }

  lemma WrittenLength(c: Chunks, offset: nat, data: Bytes, k: nat)
    ensures ChunkLength(Written(c, offset, data), k) ==
            if Touches(k, offset, |data|)
            then Max(ChunkLength(c, k), Min(CHUNK_SIZE, offset + |data| - k * CHUNK_SIZE))
            else ChunkLength(c, k)
  {
    WrittenKeys(c, offset, data, k);
  }

  /** How long chunk `k` of a packed file of the given size is; zero when it is absent. */
  function PackedLength(size: nat, k: nat): nat {
    if k * CHUNK_SIZE < size then Min(CHUNK_SIZE, size - k * CHUNK_SIZE) else 0
  }

  lemma PackedByLength(c: Chunks, size: nat)
    requires forall k | k in c :: c[k] != []
    ensures Packed(c, size) <==> forall k: nat :: ChunkLength(c, k) == PackedLength(size, k)
  {
    if forall k: nat :: ChunkLength(c, k) == PackedLength(size, k) {
      forall k: nat ensures k in c <==> k * CHUNK_SIZE < size {
        assert ChunkLength(c, k) == PackedLength(size, k);
      }
      forall k | k in c ensures |c[k]| == Min(CHUNK_SIZE, size - k * CHUNK_SIZE) {
        assert ChunkLength(c, k) == PackedLength(size, k);
      }
    }
    if Packed(c, size) {
      forall k: nat ensures ChunkLength(c, k) == PackedLength(size, k) {
        assert k in c <==> k * CHUNK_SIZE < size;
      }
    }
  }

  /** From a packed file, a write leaves it packed exactly when it starts no later than the
      chunk holding the end of file. */
  lemma WriteKeepsPacked(c: Chunks, size: nat, offset: nat, data: Bytes)
    requires Packed(c, size) && data != []
    ensures Packed(Written(c, offset, data), WrittenSize(size, offset, data))
            <==> offset / CHUNK_SIZE <= size / CHUNK_SIZE
  {
    var c' := Written(c, offset, data);
    var size' := WrittenSize(size, offset, data);
    PackedIsValid(c, size);
    WriteRefinesFlat(c, size, offset, data);
    PackedByLength(c, size);
    PackedByLength(c', size');
    if offset / CHUNK_SIZE <= size / CHUNK_SIZE {
      forall k: nat ensures ChunkLength(c', k) == PackedLength(size', k) {
        WrittenLength(c, offset, data, k);
        GuardedWriteLength(size, offset, |data|, k);
      }
    } else {
      var k := size / CHUNK_SIZE;
      WrittenLength(c, offset, data, k);
    }
  }

  lemma GuardedWriteLength(size: nat, offset: nat, n: nat, k: nat)
    requires n > 0 && offset / CHUNK_SIZE <= size / CHUNK_SIZE
    ensures PackedLength(Max(size, offset + n), k) ==
            if Touches(k, offset, n) then Max(PackedLength(size, k), Min(CHUNK_SIZE, offset + n - k * CHUNK_SIZE))
            else PackedLength(size, k)
  {
    var a, b := offset / CHUNK_SIZE, size / CHUNK_SIZE;
    assert a * CHUNK_SIZE <= offset < (a + 1) * CHUNK_SIZE;
    assert b * CHUNK_SIZE <= size < (b + 1) * CHUNK_SIZE;
  }

  // ---- Truncation ----

  /** Chunks past the new size dropped, the last one trimmed. */
  function Truncated(c: Chunks, n: nat): Chunks {
    map k | k in c && k * CHUNK_SIZE < n
      :: if |c[k]| <= n - k * CHUNK_SIZE then c[k] else c[k][..n - k * CHUNK_SIZE]
  }

  lemma TruncateRefinesFlat(c: Chunks, size: nat, n: nat)
    requires ValidStore(c, size)
    ensures ValidStore(Truncated(c, n), n)
    ensures Flat(Truncated(c, n), n) == MemResize(Flat(c, size), n)
  {
    forall p: nat | p < n ensures Flat(Truncated(c, n), n)[p] == MemResize(Flat(c, size), n)[p] {
      assert p == p / CHUNK_SIZE * CHUNK_SIZE + p % CHUNK_SIZE;
      if p >= size {
        NothingPastSize(c, size, p);
      }
    }
  }

  /** From a packed file, truncation leaves it packed exactly when it does not grow the file. */
  lemma TruncateKeepsPacked(c: Chunks, size: nat, n: nat)
    requires Packed(c, size)
    ensures Packed(Truncated(c, n), n) <==> n <= size
  {
    var c' := Truncated(c, n);
    if n > size {
      var k := size / CHUNK_SIZE;
      assert k * CHUNK_SIZE < n;
      if k in c' {
        assert |c'[k]| == size - k * CHUNK_SIZE < Min(CHUNK_SIZE, n - k * CHUNK_SIZE);
      }
    }
  }

  // ---- Whole-content rewrites ----

  function ChunkCount(size: nat): nat {
    (size + CHUNK_SIZE - 1) / CHUNK_SIZE
  }

  function SliceAt(data: Bytes, k: nat): Bytes
    requires k * CHUNK_SIZE < |data|
  {
    data[k * CHUNK_SIZE..Min((k + 1) * CHUNK_SIZE, |data|)]
  }

  /** The slices stored once the first `n` are. */
  function SlicedBelow(data: Bytes, n: nat): Chunks {
    map k: nat | k < n && k * CHUNK_SIZE < |data| :: SliceAt(data, k)
  }

  function Sliced(data: Bytes): Chunks {
    SlicedBelow(data, ChunkCount(|data|))
  }

  lemma NextSlice(data: Bytes, n: nat)
    requires n * CHUNK_SIZE < |data|
    ensures SlicedBelow(data, n)[n := SliceAt(data, n)] == SlicedBelow(data, n + 1)
  {
  }

  lemma InChunkCount(size: nat, k: nat)
    ensures k < ChunkCount(size) <==> k * CHUNK_SIZE < size
  {
  }

  lemma RewriteRefinesFlat(data: Bytes)
    ensures Packed(Sliced(data), |data|) && Flat(Sliced(data), |data|) == data
  {
    forall k: nat ensures k in Sliced(data) <==> k * CHUNK_SIZE < |data| {
      InChunkCount(|data|, k);
    }
    forall p: nat | p < |data| ensures Flat(Sliced(data), |data|)[p] == data[p] {
      assert p == p / CHUNK_SIZE * CHUNK_SIZE + p % CHUNK_SIZE;
    }
  }

  lemma PackedIsValid(c: Chunks, size: nat)
    requires Packed(c, size)
    ensures ValidStore(c, size)
  {
  }

  // ---- Reading a range ----

  /** What index `k` contributes when read from `from` on: a gap counts as zeros. */
  function Piece(c: Chunks, k: nat, from: nat): Bytes
    requires from < CHUNK_SIZE && (k in c ==> from <= |c[k]|)
  {
    if k in c then c[k][from..] else Zeros(CHUNK_SIZE - from)
  }

  /** What the read loop has collected once every index below `k` has been considered; the
      first chunk is sliced from `skip`, which fails when its row is shorter than that. */
  function Gathered(c: Chunks, start: nat, skip: nat, limit: nat, k: nat): (r: Result<Bytes, VfsError>)
    requires start <= k && skip < CHUNK_SIZE
    ensures r.Ok? ==> |r.value| <= limit
    decreases k - start
  {
    if k == start then Ok([])
    else
      var before := Gathered(c, start, skip, limit, k - 1);
      if before.Err? || |before.value| >= limit then before
      else
        var from := if k - 1 == start then skip else 0;
        if k - 1 in c && from > |c[k - 1]| then Err(OutOfRange)
        else
          var piece := Piece(c, k - 1, from);
          Ok(before.value + piece[..Min(|piece|, limit - |before.value|)])
  }

  function PadTo(r: Result<Bytes, VfsError>, limit: nat): Result<Bytes, VfsError>
    requires r.Ok? ==> |r.value| <= limit
  {
    if r.Err? then r else Ok(r.value + Zeros(limit - |r.value|))
  }

  /** Last chunk index a read asks for; an empty read asks for the one before its offset. */
  function EndChunk(offset: nat, limit: nat): nat {
    Max(offset + limit - 1, 0) / CHUNK_SIZE
  }

  function ReadResult(c: Chunks, size: nat, offset: nat, n: nat): Result<Bytes, VfsError> {
    if offset >= size then Ok([])
    else
      var limit := Min(n, size - offset);
      var start := offset / CHUNK_SIZE;
      PadTo(Gathered(c, start, offset % CHUNK_SIZE, limit, Max(EndChunk(offset, limit) + 1, start)), limit)
  }

  /** Every range reads as the flat file would give it. */
  ghost predicate ReadsRight(c: Chunks, size: nat) {
    forall offset: nat, n: nat :: ReadResult(c, size, offset, n) == Ok(MemRead(Flat(c, size), offset, n))
  }

  /** Bytes of chunk `k` that lie inside the file but are not stored in its row. */
  function Missing(c: Chunks, size: nat, k: nat): int
    requires k in c
  {
    Min((k + 1) * CHUNK_SIZE, size) - k * CHUNK_SIZE - |c[k]|
  }

  ghost predicate ZeroFrom(c: Chunks, size: nat, from: nat) {
    forall p: nat | from <= p < size :: ByteAt(c, p) == 0
  }

  /** Every row is full or ends at the end of file; one missing byte is harmless when only
      zeros follow. */
  ghost predicate Readable(c: Chunks, size: nat) {
    forall k | k in c ::
      Missing(c, size, k) == 0 || (Missing(c, size, k) == 1 && ZeroFrom(c, size, (k + 1) * CHUNK_SIZE))
  }

  /** Where a read from `skip` bytes into chunk `start` finds chunk `k`. */
  function ChunkStart(start: nat, skip: nat, k: nat): nat {
    k * CHUNK_SIZE + if k == start then skip else 0
  }

  /** `a` agrees with the file from `offset` up to `at`, and stops short of it only at the read's
      end or where zeros follow. */
  ghost predicate Agrees(c: Chunks, size: nat, offset: nat, limit: nat, a: Bytes, at: nat) {
    |a| <= limit && offset + |a| <= at
    && (forall i | 0 <= i < |a| :: a[i] == ByteAt(c, offset + i))
    && (|a| == limit || offset + |a| == at || ZeroFrom(c, size, offset + |a|))
  }

  lemma PieceBytes(c: Chunks, k: nat, from: nat)
    requires from < CHUNK_SIZE && (k in c ==> from <= |c[k]| <= CHUNK_SIZE)
    ensures |Piece(c, k, from)| <= CHUNK_SIZE - from
    ensures forall i | 0 <= i < |Piece(c, k, from)| :: Piece(c, k, from)[i] == ByteAt(c, k * CHUNK_SIZE + from + i)
  {
    forall i | 0 <= i < |Piece(c, k, from)|
      ensures Piece(c, k, from)[i] == ByteAt(c, k * CHUNK_SIZE + from + i)
    {
      Locate(k, from + i);
    }
  }

  /** A readable row's piece is never sliced out of range, and stops only at zeros. */
  lemma PieceReaches(c: Chunks, size: nat, k: nat, from: nat)
    requires ValidStore(c, size) && Readable(c, size) && from < CHUNK_SIZE && k * CHUNK_SIZE + from < size
    ensures k in c ==> from <= |c[k]|
    ensures |Piece(c, k, from)| == CHUNK_SIZE - from || ZeroFrom(c, size, k * CHUNK_SIZE + from + |Piece(c, k, from)|)
  {
    if k in c {
      assert Missing(c, size, k) == 0 || Missing(c, size, k) == 1;
      var end := k * CHUNK_SIZE + |c[k]|;
      if |c[k]| < CHUNK_SIZE {
        forall p: nat | end <= p < size ensures ByteAt(c, p) == 0 {
          if p < (k + 1) * CHUNK_SIZE {
            Locate(k, p - k * CHUNK_SIZE);
          }
        }
      }
    }
  }

  /** `piece` holds the file's bytes from `at` on; it fills the room, or zeros follow it. */
  ghost predicate PieceOf(c: Chunks, size: nat, at: nat, piece: Bytes, room: nat) {
    && |piece| <= room && (forall i | 0 <= i < |piece| :: piece[i] == ByteAt(c, at + i))
    && (|piece| == room || ZeroFrom(c, size, at + |piece|))
  }

  lemma PieceFits(c: Chunks, size: nat, k: nat, from: nat)
    requires ValidStore(c, size) && Readable(c, size) && from < CHUNK_SIZE && k * CHUNK_SIZE + from < size
    ensures k in c ==> from <= |c[k]|
    ensures PieceOf(c, size, k * CHUNK_SIZE + from, Piece(c, k, from), CHUNK_SIZE - from)
  {
    PieceReaches(c, size, k, from);
    PieceBytes(c, k, from);
  }

  lemma AppendPiece(c: Chunks, size: nat, offset: nat, limit: nat, a: Bytes, at: nat, piece: Bytes, room: nat)
    requires ValidStore(c, size) && offset + limit <= size && |a| < limit && at < offset + limit
    requires Agrees(c, size, offset, limit, a, at) && PieceOf(c, size, at, piece, room)
    ensures Agrees(c, size, offset, limit, a + piece[..Min(|piece|, limit - |a|)], at + room)
  {
    var n := Min(|piece|, limit - |a|);
    if offset + |a| != at {
      forall i | 0 <= i < |piece| && at + i >= size ensures piece[i] == 0 {
        NothingPastSize(c, size, at + i);
      }
      ShiftedPiece(c, size, offset, limit, a, piece, at, n);
    } else if n < |piece| {
      assert |a + piece[..n]| == limit;
    }
  }

  /** A piece put early still agrees: nothing but zeros was skipped, and nothing but zeros is put. */
  lemma ShiftedPiece(c: Chunks, size: nat, offset: nat, limit: nat, a: Bytes, piece: Bytes, at: nat, n: nat)
    requires ZeroFrom(c, size, offset + |a|) && offset + |a| <= at && offset + limit <= size
    requires n <= |piece| && |a| + n <= limit && forall i | 0 <= i < |piece| :: piece[i] == ByteAt(c, at + i)
    requires forall i | 0 <= i < |piece| && at + i >= size :: piece[i] == 0
    ensures forall i | |a| <= i < |a| + n :: (a + piece[..n])[i] == ByteAt(c, offset + i)
    ensures ZeroFrom(c, size, offset + |a| + n)
  {
    forall i | |a| <= i < |a| + n ensures (a + piece[..n])[i] == ByteAt(c, offset + i) {
      assert (a + piece[..n])[i] == piece[i - |a|] == ByteAt(c, at + (i - |a|)) == 0;
      assert ByteAt(c, offset + i) == 0;
    }
  }

  /** One turn of the read loop keeps the agreement and does not fail. */
  lemma NextPieceAgrees(c: Chunks, size: nat, offset: nat, limit: nat, a: Bytes, k: nat, from: nat)
    requires ValidStore(c, size) && Readable(c, size) && from < CHUNK_SIZE
    requires k * CHUNK_SIZE + from < offset + limit <= size
    requires |a| < limit && Agrees(c, size, offset, limit, a, k * CHUNK_SIZE + from)
    ensures k in c ==> from <= |c[k]|
    ensures
      var piece := Piece(c, k, from);
      Agrees(c, size, offset, limit, a + piece[..Min(|piece|, limit - |a|)], k * CHUNK_SIZE + CHUNK_SIZE)
  {
    PieceFits(c, size, k, from);
    AppendPiece(c, size, offset, limit, a, k * CHUNK_SIZE + from, Piece(c, k, from), CHUNK_SIZE - from);
  }

  /** The read loop has not failed before chunk `k`, and agrees with the file so far. */
  ghost predicate OnTrack(c: Chunks, size: nat, start: nat, skip: nat, limit: nat, k: nat)
    requires start <= k && skip < CHUNK_SIZE
  {
    var r := Gathered(c, start, skip, limit, k);
    r.Ok? && Agrees(c, size, start * CHUNK_SIZE + skip, limit, r.value, ChunkStart(start, skip, k))
  }

  lemma {:induction false} GatheredAgrees(c: Chunks, size: nat, start: nat, skip: nat, limit: nat, k: nat)
    requires ValidStore(c, size) && Readable(c, size) && skip < CHUNK_SIZE
    requires start * CHUNK_SIZE + skip < size && start * CHUNK_SIZE + skip + limit <= size && start <= k
    requires limit == 0 || k * CHUNK_SIZE < start * CHUNK_SIZE + skip + limit + CHUNK_SIZE
    ensures OnTrack(c, size, start, skip, limit, k)
    decreases k
  {
    if k == start {
      AgreesAtStart(c, size, start, skip, limit);
    } else {
      var j := k - 1;
      assert k * CHUNK_SIZE == j * CHUNK_SIZE + CHUNK_SIZE;
      GatheredAgrees(c, size, start, skip, limit, j);
      StaysOnTrack(c, size, start, skip, limit, j);
    }
  }

  lemma StaysOnTrack(c: Chunks, size: nat, start: nat, skip: nat, limit: nat, k: nat)
    requires ValidStore(c, size) && Readable(c, size) && skip < CHUNK_SIZE && start <= k
    requires start * CHUNK_SIZE + skip + limit <= size
             && (limit == 0 || k * CHUNK_SIZE < start * CHUNK_SIZE + skip + limit)
    requires OnTrack(c, size, start, skip, limit, k)
    ensures OnTrack(c, size, start, skip, limit, k + 1)
  {
    var a := Gathered(c, start, skip, limit, k).value;
    if |a| < limit {
      StepAgrees(c, size, start, skip, limit, k, a);
    } else {
      FullStaysFull(c, start, skip, limit, k, k + 1);
      PutOnTrack(c, size, start, skip, limit, k, k + 1, a);
    }
  }

  lemma AgreesAtStart(c: Chunks, size: nat, start: nat, skip: nat, limit: nat)
    requires skip < CHUNK_SIZE
    ensures Agrees(c, size, start * CHUNK_SIZE + skip, limit, [], ChunkStart(start, skip, start))
    ensures Gathered(c, start, skip, limit, start) == Ok([])
  {
  }

  lemma NextChunkStart(start: nat, skip: nat, k: nat)
    requires start <= k
    ensures ChunkStart(start, skip, k + 1) == k * CHUNK_SIZE + CHUNK_SIZE
  {
  }

  lemma StepAgrees(c: Chunks, size: nat, start: nat, skip: nat, limit: nat, k: nat, a: Bytes)
    requires ValidStore(c, size) && Readable(c, size) && skip < CHUNK_SIZE && start <= k
    requires start * CHUNK_SIZE + skip + limit <= size && k * CHUNK_SIZE < start * CHUNK_SIZE + skip + limit
    requires Gathered(c, start, skip, limit, k) == Ok(a) && |a| < limit
    requires Agrees(c, size, start * CHUNK_SIZE + skip, limit, a, ChunkStart(start, skip, k))
    ensures OnTrack(c, size, start, skip, limit, k + 1)
  {
    var from := if k == start then skip else 0;
    NextPieceAgrees(c, size, start * CHUNK_SIZE + skip, limit, a, k, from);
    GatheredNext(c, start, skip, limit, k, a, from);
    var piece := Piece(c, k, from);
    PutOnTrack(c, size, start, skip, limit, k, k + 1, a + piece[..Min(|piece|, limit - |a|)]);
  }

  lemma PutOnTrack(c: Chunks, size: nat, start: nat, skip: nat, limit: nat, k: nat, n: nat, a: Bytes)
    requires skip < CHUNK_SIZE && start <= k && n == k + 1 && Gathered(c, start, skip, limit, n) == Ok(a)
    requires Agrees(c, size, start * CHUNK_SIZE + skip, limit, a, k * CHUNK_SIZE + CHUNK_SIZE)
    ensures OnTrack(c, size, start, skip, limit, n)
  {
    NextChunkStart(start, skip, k);
  }

  lemma GatheredNext(c: Chunks, start: nat, skip: nat, limit: nat, k: nat, a: Bytes, from: nat)
    requires start <= k && skip < CHUNK_SIZE && Gathered(c, start, skip, limit, k) == Ok(a) && |a| < limit
    requires from == (if k == start then skip else 0) && (k in c ==> from <= |c[k]|)
    ensures
      var piece := Piece(c, k, from);
      Gathered(c, start, skip, limit, k + 1) == Ok(a + piece[..Min(|piece|, limit - |a|)])
  {
  }

  lemma EndChunkCovers(offset: nat, limit: nat, k: nat)
    requires k == Max(EndChunk(offset, limit) + 1, offset / CHUNK_SIZE)
    ensures limit > 0 ==> offset + limit <= k * CHUNK_SIZE < offset + limit + CHUNK_SIZE
  {
  }

  lemma AgreesPads(c: Chunks, size: nat, offset: nat, limit: nat, a: Bytes, at: nat)
    requires Agrees(c, size, offset, limit, a, at) && offset + limit <= size && offset + limit <= at
    ensures a + Zeros(limit - |a|) == Flat(c, size)[offset..offset + limit]
  {
    var padded := a + Zeros(limit - |a|);
    forall i | 0 <= i < limit ensures padded[i] == ByteAt(c, offset + i) {
      if i >= |a| {
        assert ZeroFrom(c, size, offset + |a|);
      }
    }
  }

  lemma PaddedGathered(c: Chunks, size: nat, offset: nat, limit: nat, k: nat)
    requires ValidStore(c, size) && Readable(c, size) && offset < size && offset + limit <= size
    requires offset / CHUNK_SIZE <= k && (limit > 0 ==> offset + limit <= k * CHUNK_SIZE < offset + limit + CHUNK_SIZE)
    ensures PadTo(Gathered(c, offset / CHUNK_SIZE, offset % CHUNK_SIZE, limit, k), limit)
            == Ok(Flat(c, size)[offset..offset + limit])
  {
    assert offset / CHUNK_SIZE * CHUNK_SIZE + offset % CHUNK_SIZE == offset;
    GatheredAgrees(c, size, offset / CHUNK_SIZE, offset % CHUNK_SIZE, limit, k);
    AgreesPads(c, size, offset, limit, Gathered(c, offset / CHUNK_SIZE, offset % CHUNK_SIZE, limit, k).value,
               ChunkStart(offset / CHUNK_SIZE, offset % CHUNK_SIZE, k));
  }

  lemma MemReadIs(d: Bytes, offset: nat, n: nat)
    ensures MemRead(d, offset, n) == if offset < |d| then d[offset..offset + Min(n, |d| - offset)] else []
  {
  }

  lemma ReadableReadsRight(c: Chunks, size: nat, offset: nat, n: nat)
    requires ValidStore(c, size) && Readable(c, size)
    ensures ReadResult(c, size, offset, n) == Ok(MemRead(Flat(c, size), offset, n))
  {
    if offset < size {
      var limit := Min(n, size - offset);
      var k := Max(EndChunk(offset, limit) + 1, offset / CHUNK_SIZE);
      EndChunkCovers(offset, limit, k);
      PaddedGathered(c, size, offset, limit, k);
    }
    MemReadIs(Flat(c, size), offset, n);
  }

  /** The first non-zero byte at or after `from`. */
  lemma {:induction false} FirstNonZero(c: Chunks, size: nat, from: nat) returns (p: nat)
    requires !ZeroFrom(c, size, from)
    ensures from <= p < size && ByteAt(c, p) != 0
    ensures forall q: nat | from <= q < p :: ByteAt(c, q) == 0
    decreases size - from
  {
    if ByteAt(c, from) != 0 {
      p := from;
    } else {
      p := FirstNonZero(c, size, from + 1);
    }
  }

  /** Behind a row one byte short, everything up to the first non-zero byte is collected too early. */
  lemma {:induction false} GatheredShifted(c: Chunks, size: nat, start: nat, limit: nat, p: nat, k: nat)
    requires ValidStore(c, size) && start in c && |c[start]| == CHUNK_SIZE - 1
    requires (start + 1) * CHUNK_SIZE <= p < size
    requires forall q: nat | (start + 1) * CHUNK_SIZE <= q < p :: ByteAt(c, q) == 0
    requires limit == p - (start + 1) * CHUNK_SIZE + 2 && start < k <= p / CHUNK_SIZE
    ensures
      var r := Gathered(c, start, CHUNK_SIZE - 1, limit, k);
      r.Ok? && |r.value| <= (k - start - 1) * CHUNK_SIZE && forall i | 0 <= i < |r.value| :: r.value[i] == 0
    decreases k
  {
    if k > start + 1 {
      GatheredShifted(c, size, start, limit, p, k - 1);
      PieceBytes(c, k - 1, 0);
    } else {
      assert Gathered(c, start, CHUNK_SIZE - 1, limit, start) == Ok([]);
      assert Piece(c, start, CHUNK_SIZE - 1) == [];
    }
  }

  /** A row that is not readable has a range that reads wrongly, or not at all. */
  lemma UnreadableReadsWrong(c: Chunks, size: nat)
    requires ValidStore(c, size) && !Readable(c, size)
    ensures !ReadsRight(c, size)
  {
    var k :| k in c && Missing(c, size, k) != 0
             && !(Missing(c, size, k) == 1 && ZeroFrom(c, size, (k + 1) * CHUNK_SIZE));
    if Missing(c, size, k) > 1 {
      var offset := k * CHUNK_SIZE + |c[k]| + 1;
      Locate(k, |c[k]| + 1);
      assert Gathered(c, k, |c[k]| + 1, 1, k) == Ok([]);
      assert Gathered(c, k, |c[k]| + 1, 1, k + 1) == Err(OutOfRange);
      Locate(k, |c[k]| + 1);
      assert ReadResult(c, size, offset, 1) == Err(OutOfRange);
    } else {
      var p := FirstNonZero(c, size, (k + 1) * CHUNK_SIZE);
      assert |c[k]| == CHUNK_SIZE - 1;
      var offset := k * CHUNK_SIZE + CHUNK_SIZE - 1;
      ShiftedReadIsWrong(c, size, k, offset, p);
    }
  }

  /** A byte of the last chunk read is put right after what was collected before it. */
  lemma LastChunkByte(c: Chunks, start: nat, skip: nat, limit: nat, m: nat, a: Bytes, j: nat)
    requires start < m && skip < CHUNK_SIZE && Gathered(c, start, skip, limit, m) == Ok(a)
    requires m in c && j < |c[m]| <= CHUNK_SIZE && |a| + j < limit
    ensures
      var r := PadTo(Gathered(c, start, skip, limit, m + 1), limit);
      r.Ok? && |r.value| == limit && r.value[|a| + j] == c[m][j]
  {
    GatheredNext(c, start, skip, limit, m, a, 0);
    assert Piece(c, m, 0)[j] == c[m][j];
  }

  lemma ReadFrom(c: Chunks, size: nat, k: nat, skip: nat, limit: nat, m: nat, j: nat)
    requires skip < CHUNK_SIZE && j < CHUNK_SIZE && limit > 0 && k * CHUNK_SIZE + skip + limit <= size
    requires k * CHUNK_SIZE + skip + limit - 1 == m * CHUNK_SIZE + j
    ensures k <= m
    ensures ReadResult(c, size, k * CHUNK_SIZE + skip, limit) == PadTo(Gathered(c, k, skip, limit, m + 1), limit)
  {
    Locate(k, skip);
    Locate(m, j);
  }

  lemma ShiftedReadIsWrong(c: Chunks, size: nat, k: nat, offset: nat, p: nat)
    requires ValidStore(c, size) && k in c && |c[k]| == CHUNK_SIZE - 1 && offset == k * CHUNK_SIZE + CHUNK_SIZE - 1
    requires offset < p < size && ByteAt(c, p) != 0
    requires forall q: nat | offset < q < p :: ByteAt(c, q) == 0
    ensures ReadResult(c, size, offset, p - offset + 1) != Ok(MemRead(Flat(c, size), offset, p - offset + 1))
  {
    var i := ShiftedByte(c, size, k, offset, p, p / CHUNK_SIZE, p % CHUNK_SIZE);
    ZeroBefore(c, k, offset, p, i);
    MemReadByte(c, size, offset, p - offset + 1, i);
  }

  /** Before the chunk of byte `p`, fewer bytes were collected than lie before it. */
  lemma CollectedShort(c: Chunks, size: nat, k: nat, offset: nat, p: nat, m: nat, j: nat) returns (a: Bytes)
    requires ValidStore(c, size) && k in c && |c[k]| == CHUNK_SIZE - 1 && offset == k * CHUNK_SIZE + CHUNK_SIZE - 1
    requires offset < p < size && p == m * CHUNK_SIZE + j && j < CHUNK_SIZE
    requires forall q: nat | offset < q < p :: ByteAt(c, q) == 0
    ensures k < m && Gathered(c, k, CHUNK_SIZE - 1, p - offset + 1, m) == Ok(a) && |a| + j < p - offset
  {
    Locate(m, j);
    GatheredShifted(c, size, k, p - offset + 1, p, m);
    a := Gathered(c, k, CHUNK_SIZE - 1, p - offset + 1, m).value;
  }

  /** The read puts byte `p` at index `i`, too early. */
  lemma ShiftedByte(c: Chunks, size: nat, k: nat, offset: nat, p: nat, m: nat, j: nat) returns (i: nat)
    requires ValidStore(c, size) && k in c && |c[k]| == CHUNK_SIZE - 1 && offset == k * CHUNK_SIZE + CHUNK_SIZE - 1
    requires offset < p < size && p == m * CHUNK_SIZE + j && j < CHUNK_SIZE && m in c && j < |c[m]|
    requires forall q: nat | offset < q < p :: ByteAt(c, q) == 0
    ensures offset + i < p
    ensures
      var r := ReadResult(c, size, offset, p - offset + 1);
      r.Ok? && |r.value| == p - offset + 1 && r.value[i] == c[m][j]
  {
    var limit := p - offset + 1;
    var a := CollectedShort(c, size, k, offset, p, m, j);
    LastChunkByte(c, k, CHUNK_SIZE - 1, limit, m, a, j);
    ReadFrom(c, size, k, CHUNK_SIZE - 1, limit, m, j);
    i := |a| + j;
  }

  lemma MemReadByte(c: Chunks, size: nat, offset: nat, n: nat, i: nat)
    requires i < n && offset + n <= size
    ensures
      var d := MemRead(Flat(c, size), offset, n);
      |d| == n && d[i] == ByteAt(c, offset + i)
  {
  }

  /** The missing byte reads as zero, like those after it up to `p`. */
  lemma ZeroBefore(c: Chunks, k: nat, offset: nat, p: nat, i: nat)
    requires k in c && |c[k]| == CHUNK_SIZE - 1 && offset == k * CHUNK_SIZE + CHUNK_SIZE - 1 && offset + i < p
    requires forall q: nat | offset < q < p :: ByteAt(c, q) == 0
    ensures ByteAt(c, offset + i) == 0
  {
    Locate(k, CHUNK_SIZE - 1);
  }

  /** Reading is right for every range exactly when every row is full or ends at the end of
      file, but for single missing bytes followed by zeros only. */
  lemma ReadsRightIffReadable(c: Chunks, size: nat)
    requires ValidStore(c, size)
    ensures ReadsRight(c, size) <==> Readable(c, size)
  {
    if Readable(c, size) {
      forall offset: nat, n: nat ensures ReadResult(c, size, offset, n) == Ok(MemRead(Flat(c, size), offset, n)) {
        ReadableReadsRight(c, size, offset, n);
      }
    } else {
      UnreadableReadsWrong(c, size);
    }
  }

  // ---- Reading everything ----

  /** The rows below index `n`, run together in index order with nothing for the gaps. */
  function Concatenated(c: Chunks, n: nat): Bytes {
    if n == 0 then [] else Concatenated(c, n - 1) + (if n - 1 in c then c[n - 1] else [])
  }

  /** `read_all_content`: what the push worker sends. */
  function AllContent(c: Chunks, size: nat): Bytes {
    var all := Concatenated(c, ChunkCount(size));
    all[..Min(|all|, size)]
  }

  lemma {:induction false} ConcatenatedLength(c: Chunks, size: nat, n: nat)
    requires ValidStore(c, size) && n <= ChunkCount(size)
    ensures |Concatenated(c, n)| <= Min(n * CHUNK_SIZE, size)
    ensures |Concatenated(c, n)| == Min(n * CHUNK_SIZE, size) ==>
              forall k: nat | k < n :: ChunkLength(c, k) == PackedLength(size, k)
  {
    if n > 0 {
      ConcatenatedLength(c, size, n - 1);
      InChunkCount(size, n - 1);
    }
  }

  lemma {:induction false} ConcatenatedPacked(c: Chunks, size: nat, n: nat)
    requires Packed(c, size) && n <= ChunkCount(size)
    ensures |Concatenated(c, n)| == Min(n * CHUNK_SIZE, size)
    ensures forall p: nat | p < |Concatenated(c, n)| :: Concatenated(c, n)[p] == ByteAt(c, p)
  {
    if n > 0 {
      ConcatenatedPacked(c, size, n - 1);
      InChunkCount(size, n - 1);
      forall p: nat | (n - 1) * CHUNK_SIZE <= p < |Concatenated(c, n)|
        ensures Concatenated(c, n)[p] == ByteAt(c, p)
      {
        StoredByte(c, n - 1, p - (n - 1) * CHUNK_SIZE);
      }
    }
  }

  /** Reading everything gives the flat contents exactly when the file is packed; any other
      file comes out too short. */
  lemma AllContentIffPacked(c: Chunks, size: nat)
    requires ValidStore(c, size)
    ensures AllContent(c, size) == Flat(c, size) <==> Packed(c, size)
    ensures !Packed(c, size) ==> |AllContent(c, size)| < size
  {
    var n := ChunkCount(size);
    assert n * CHUNK_SIZE >= size;
    ConcatenatedLength(c, size, n);
    PackedByLength(c, size);
    if |Concatenated(c, n)| == size {
      forall k: nat ensures ChunkLength(c, k) == PackedLength(size, k) {
        InChunkCount(size, k);
      }
    }
    if Packed(c, size) {
      ConcatenatedPacked(c, size, n);
      assert AllContent(c, size) == Flat(c, size);
    }
  }

  lemma PackedIsReadable(c: Chunks, size: nat)
    requires Packed(c, size)
    ensures Readable(c, size)
  {
  }

  // ---- Files with holes ----

  /** Every stored row is full, or ends at the end of file; any chunk may be missing. */
  ghost predicate Whole(c: Chunks, size: nat) {
    forall k | k in c :: Missing(c, size, k) == 0
  }

  lemma WholeIsReadable(c: Chunks, size: nat)
    requires Whole(c, size)
    ensures Readable(c, size)
  {
  }

  /** The chunk holding the end of file is stored, and not up to its end. */
  predicate EndsInRow(c: Chunks, size: nat) {
    size / CHUNK_SIZE in c && size % CHUNK_SIZE != 0
  }

  /** The write ends inside a chunk that is not stored, before the end of file. */
  predicate EndsInHole(c: Chunks, size: nat, offset: nat, n: nat)
    requires n > 0
  {
    (offset + n - 1) / CHUNK_SIZE !in c && (offset + n) % CHUNK_SIZE != 0 && offset + n < size
  }

  /** With holes, a write leaves every row whole exactly when it neither starts beyond a last chunk
      that is stored in part, nor ends inside a hole. */
  lemma WriteKeepsWhole(c: Chunks, size: nat, offset: nat, data: Bytes)
    requires ValidStore(c, size) && Whole(c, size) && data != []
    ensures Whole(Written(c, offset, data), WrittenSize(size, offset, data))
       <==> !(EndsInRow(c, size) && offset / CHUNK_SIZE > size / CHUNK_SIZE) && !EndsInHole(c, size, offset, |data|)
  {
    var c', size' := Written(c, offset, data), WrittenSize(size, offset, data);
    var e, z := size / CHUNK_SIZE, (offset + |data| - 1) / CHUNK_SIZE;
    if EndsInRow(c, size) && offset / CHUNK_SIZE > e {
      LeftShort(c, size, offset, data);
    } else if EndsInHole(c, size, offset, |data|) {
      NewRowShort(c, size, offset, data);
    } else {
      forall k | k in c' ensures Missing(c', size', k) == 0 {
        if Touches(k, offset, |data|) {
          TouchedRowWhole(c, size, offset, data, k);
        } else {
          WrittenKeys(c, offset, data, k);
          UntouchedRowWhole(c, size, offset, data, k);
        }
      }
    }
  }

  lemma LeftShort(c: Chunks, size: nat, offset: nat, data: Bytes)
    requires ValidStore(c, size) && data != [] && EndsInRow(c, size) && offset / CHUNK_SIZE > size / CHUNK_SIZE
    ensures !Whole(Written(c, offset, data), WrittenSize(size, offset, data))
  {
    var e := size / CHUNK_SIZE;
    WrittenKeys(c, offset, data, e);
    assert !Touches(e, offset, |data|);
    assert Missing(Written(c, offset, data), WrittenSize(size, offset, data), e) > 0;
  }

  lemma NewRowShort(c: Chunks, size: nat, offset: nat, data: Bytes)
    requires ValidStore(c, size) && data != [] && EndsInHole(c, size, offset, |data|)
    ensures !Whole(Written(c, offset, data), WrittenSize(size, offset, data))
  {
    var z := (offset + |data| - 1) / CHUNK_SIZE;
    assert z * CHUNK_SIZE <= offset + |data| - 1 < (z + 1) * CHUNK_SIZE;
    assert Touches(z, offset, |data|);
    WrittenKeys(c, offset, data, z);
    WrittenLength(c, offset, data, z);
    assert offset + |data| != (z + 1) * CHUNK_SIZE;
    assert Missing(Written(c, offset, data), WrittenSize(size, offset, data), z) > 0;
  }

  lemma TouchedRowWhole(c: Chunks, size: nat, offset: nat, data: Bytes, k: nat)
    requires ValidStore(c, size) && Whole(c, size) && Touches(k, offset, |data|) && !EndsInHole(c, size, offset, |data|)
    ensures k in Written(c, offset, data) && Missing(Written(c, offset, data), WrittenSize(size, offset, data), k) == 0
  {
    WrittenKeys(c, offset, data, k);
    WrittenLength(c, offset, data, k);
    if offset + |data| < (k + 1) * CHUNK_SIZE {
      assert (offset + |data| - 1) / CHUNK_SIZE == k;
      assert (offset + |data|) % CHUNK_SIZE == offset + |data| - k * CHUNK_SIZE;
      assert k in c ==> Missing(c, size, k) == 0;
    }
  }

  lemma UntouchedRowWhole(c: Chunks, size: nat, offset: nat, data: Bytes, k: nat)
    requires ValidStore(c, size) && Whole(c, size) && k in c && !Touches(k, offset, |data|) && data != []
    requires !(EndsInRow(c, size) && offset / CHUNK_SIZE > size / CHUNK_SIZE)
    ensures k in Written(c, offset, data) && Missing(Written(c, offset, data), WrittenSize(size, offset, data), k) == 0
  {
    WrittenKeys(c, offset, data, k);
    assert Missing(c, size, k) == 0;
    if size < (k + 1) * CHUNK_SIZE {
      assert k * CHUNK_SIZE < size;
      assert size / CHUNK_SIZE == k && size % CHUNK_SIZE == size - k * CHUNK_SIZE;
      assert offset / CHUNK_SIZE <= k;
    }
  }

  /** With holes, truncation leaves every row whole exactly when it does not grow the file past a last
      chunk that is stored in part. */
  lemma TruncateKeepsWhole(c: Chunks, size: nat, n: nat)
    requires ValidStore(c, size) && Whole(c, size)
    ensures Whole(Truncated(c, n), n) <==> n <= size || !EndsInRow(c, size)
  {
    var e := size / CHUNK_SIZE;
    if n > size && EndsInRow(c, size) {
      assert e in Truncated(c, n) && Missing(Truncated(c, n), n, e) > 0;
    } else {
      forall k | k in Truncated(c, n) ensures Missing(Truncated(c, n), n, k) == 0 {
        assert Missing(c, size, k) == 0;
        assert size < (k + 1) * CHUNK_SIZE ==> size / CHUNK_SIZE == k && size % CHUNK_SIZE == size - k * CHUNK_SIZE;
      }
    }
  }

  // ---- Runs ----

  datatype Op =
    | Write(offset: nat, data: Bytes)
    | Truncate(n: nat)
    | Rewrite(data: Bytes)

  /** The rows and the recorded size of one inode. */
  datatype Store = Store(c: Chunks, size: nat)

  function ApplyToStore(s: Store, op: Op): Store {
    match op
    case Write(offset, data) =>
      if data == [] || offset + |data| > MAX_FILE_SIZE then s
      else Store(Written(s.c, offset, data), WrittenSize(s.size, offset, data))
    case Truncate(n) => Store(Truncated(s.c, n), n)
    case Rewrite(data) => Store(Sliced(data), |data|)
  }

  /** The reference file, with the size cap the chunked file puts on writes. */
  function ApplyToFlat(d: Bytes, op: Op): Bytes {
    match op
    case Write(offset, data) =>
      if data == [] || offset + |data| > MAX_FILE_SIZE then d else MemWrite(d, offset, data)
    case Truncate(n) => MemResize(d, n)
    case Rewrite(data) => data
  }

  /** The operation neither writes past the chunk holding the end of file nor grows the file
      by truncation. */
  predicate Guarded(size: nat, op: Op) {
    match op
    case Write(offset, data) =>
      data == [] || offset + |data| > MAX_FILE_SIZE || offset / CHUNK_SIZE <= size / CHUNK_SIZE
    case Truncate(n) => n <= size
    case Rewrite(_) => true
  }

  function RunStore(s: Store, ops: seq<Op>): Store
    decreases |ops|
  {
    if ops == [] then s else RunStore(ApplyToStore(s, ops[0]), ops[1..])
  }

  function RunFlat(d: Bytes, ops: seq<Op>): Bytes
    decreases |ops|
  {
    if ops == [] then d else RunFlat(ApplyToFlat(d, ops[0]), ops[1..])
  }

  ghost predicate RunGuarded(s: Store, ops: seq<Op>)
    decreases |ops|
  {
    ops == [] || (Guarded(s.size, ops[0]) && RunGuarded(ApplyToStore(s, ops[0]), ops[1..]))
  }

  lemma StepRefinesFlat(s: Store, op: Op)
    requires ValidStore(s.c, s.size)
    ensures
      var s' := ApplyToStore(s, op);
      ValidStore(s'.c, s'.size) && Flat(s'.c, s'.size) == ApplyToFlat(Flat(s.c, s.size), op)
  {
    match op
    case Write(offset, data) =>
      if data != [] && offset + |data| <= MAX_FILE_SIZE {
        WriteRefinesFlat(s.c, s.size, offset, data);
      }
    case Truncate(n) => TruncateRefinesFlat(s.c, s.size, n);
    case Rewrite(data) => RewriteRefinesFlat(data); PackedIsValid(Sliced(data), |data|);
  }

  /** One operation on a packed file leaves it packed exactly when it is guarded. */
  lemma StepKeepsPacked(s: Store, op: Op)
    requires Packed(s.c, s.size)
    ensures
      var s' := ApplyToStore(s, op);
      Packed(s'.c, s'.size) <==> Guarded(s.size, op)
  {
    match op
    case Write(offset, data) =>
      if data != [] && offset + |data| <= MAX_FILE_SIZE {
        WriteKeepsPacked(s.c, s.size, offset, data);
      }
    case Truncate(n) => TruncateKeepsPacked(s.c, s.size, n);
    case Rewrite(data) => RewriteRefinesFlat(data);
  }

  /** The operation keeps every row whole. */
  predicate KeepsRows(c: Chunks, size: nat, op: Op) {
    match op
    case Write(offset, data) =>
      data == [] || offset + |data| > MAX_FILE_SIZE
      || (!(EndsInRow(c, size) && offset / CHUNK_SIZE > size / CHUNK_SIZE) && !EndsInHole(c, size, offset, |data|))
    case Truncate(n) => n <= size || !EndsInRow(c, size)
    case Rewrite(_) => true
  }

  /** One operation on a file with holes whose rows are whole leaves them whole exactly then. */
  lemma StepKeepsWhole(s: Store, op: Op)
    requires ValidStore(s.c, s.size) && Whole(s.c, s.size)
    ensures
      var s' := ApplyToStore(s, op);
      Whole(s'.c, s'.size) <==> KeepsRows(s.c, s.size, op)
  {
    match op
    case Write(offset, data) =>
      if data != [] && offset + |data| <= MAX_FILE_SIZE {
        WriteKeepsWhole(s.c, s.size, offset, data);
      }
    case Truncate(n) => TruncateKeepsWhole(s.c, s.size, n);
    case Rewrite(data) => RewriteRefinesFlat(data);
  }

  ghost predicate RunKeepsRows(s: Store, ops: seq<Op>)
    decreases |ops|
  {
    ops == [] || (KeepsRows(s.c, s.size, ops[0]) && RunKeepsRows(ApplyToStore(s, ops[0]), ops[1..]))
  }

  /** After any run of such operations every ranged read returns what the reference file holds,
      whatever holes the run leaves. */
  lemma {:induction false} RunWithHolesReadsAsFlat(s: Store, ops: seq<Op>)
    requires ValidStore(s.c, s.size) && Whole(s.c, s.size) && RunKeepsRows(s, ops)
    ensures
      var s', d := RunStore(s, ops), RunFlat(Flat(s.c, s.size), ops);
      Whole(s'.c, s'.size)
      && forall offset: nat, n: nat :: ReadResult(s'.c, s'.size, offset, n) == Ok(MemRead(d, offset, n))
    decreases |ops|
  {
    if ops == [] {
      WholeIsReadable(s.c, s.size);
      ReadsRightIffReadable(s.c, s.size);
    } else {
      StepKeepsWhole(s, ops[0]);
      StepRefinesFlat(s, ops[0]);
      RunWithHolesReadsAsFlat(ApplyToStore(s, ops[0]), ops[1..]);
    }
  }

  /** What is stored refines the flat file over every run, guarded or not. */
  lemma {:induction false} RunRefinesFlat(s: Store, ops: seq<Op>)
    requires ValidStore(s.c, s.size)
    ensures
      var s' := RunStore(s, ops);
      ValidStore(s'.c, s'.size) && Flat(s'.c, s'.size) == RunFlat(Flat(s.c, s.size), ops)
    decreases |ops|
  {
    if ops != [] {
      StepRefinesFlat(s, ops[0]);
      RunRefinesFlat(ApplyToStore(s, ops[0]), ops[1..]);
    }
  }

  lemma {:induction false} RunKeepsPacked(s: Store, ops: seq<Op>)
    requires Packed(s.c, s.size) && RunGuarded(s, ops)
    ensures Packed(RunStore(s, ops).c, RunStore(s, ops).size)
    decreases |ops|
  {
    if ops != [] {
      StepKeepsPacked(s, ops[0]);
      RunKeepsPacked(ApplyToStore(s, ops[0]), ops[1..]);
    }
  }

  /** After any guarded run from a packed file, every ranged read and the whole-file read
      return what the reference file holds. */
  lemma GuardedRunReadsAsFlat(s: Store, ops: seq<Op>)
    requires Packed(s.c, s.size) && RunGuarded(s, ops)
    ensures
      var s', d := RunStore(s, ops), RunFlat(Flat(s.c, s.size), ops);
      AllContent(s'.c, s'.size) == d
      && forall offset: nat, n: nat :: ReadResult(s'.c, s'.size, offset, n) == Ok(MemRead(d, offset, n))
  {
    var s' := RunStore(s, ops);
    PackedIsValid(s.c, s.size);
    RunRefinesFlat(s, ops);
    RunKeepsPacked(s, ops);
    PackedIsReadable(s'.c, s'.size);
    ReadsRightIffReadable(s'.c, s'.size);
    AllContentIffPacked(s'.c, s'.size);
  }

  /** Growing a file by truncation and reading inside the new part fails outright. */
  lemma GrowThenReadFails(s: Store, n: nat, offset: nat)
    requires Packed(s.c, s.size) && s.size % CHUNK_SIZE != 0
    requires s.size < offset < n && offset / CHUNK_SIZE == s.size / CHUNK_SIZE
    ensures
      var s' := ApplyToStore(s, Truncate(n));
      ReadResult(s'.c, s'.size, offset, 1) == Err(OutOfRange)
      && MemRead(MemResize(Flat(s.c, s.size), n), offset, 1) == [0]
  {
    var c', k := Truncated(s.c, n), s.size / CHUNK_SIZE;
    assert k in s.c && |c'[k]| == s.size % CHUNK_SIZE < offset % CHUNK_SIZE;
    assert Gathered(c', k, offset % CHUNK_SIZE, 1, k) == Ok([]);
    assert Gathered(c', k, offset % CHUNK_SIZE, 1, k + 1) == Err(OutOfRange);
    assert EndChunk(offset, 1) == k;
  }

  // ---- Steps of the read and write loops ----

  lemma {:induction false} FullStaysFull(c: Chunks, start: nat, skip: nat, limit: nat, k: nat, k': nat)
    requires start <= k <= k' && skip < CHUNK_SIZE
    requires Gathered(c, start, skip, limit, k).Ok? && |Gathered(c, start, skip, limit, k).value| == limit
    ensures Gathered(c, start, skip, limit, k') == Gathered(c, start, skip, limit, k)
    decreases k' - k
  {
    if k < k' {
      FullStaysFull(c, start, skip, limit, k, k' - 1);
    }
  }

  lemma {:induction false} FailureStays(c: Chunks, start: nat, skip: nat, limit: nat, k: nat, k': nat)
    requires start <= k <= k' && skip < CHUNK_SIZE
    requires Gathered(c, start, skip, limit, k).Err?
    ensures Gathered(c, start, skip, limit, k') == Gathered(c, start, skip, limit, k)
    decreases k' - k
  {
    if k < k' {
      FailureStays(c, start, skip, limit, k, k' - 1);
    }
  }

  lemma PadZeros(a: Bytes, z: Bytes, limit: nat)
    requires |a| + |z| <= limit && forall i | 0 <= i < |z| :: z[i] == 0
    ensures (a + z) + Zeros(limit - |a + z|) == a + Zeros(limit - |a|)
  {
  }

  /** Gaps behind the last row need not be filled one by one: the final padding is the same. */
  lemma {:induction false} PaddingCoversGaps(c: Chunks, start: nat, skip: nat, limit: nat, k: nat, k': nat)
    requires start <= k <= k' && skip < CHUNK_SIZE
    requires forall i | k <= i < k' :: i !in c
    requires Gathered(c, start, skip, limit, k).Ok?
    ensures PadTo(Gathered(c, start, skip, limit, k'), limit) == PadTo(Gathered(c, start, skip, limit, k), limit)
    decreases k' - k
  {
    if k < k' {
      PaddingCoversGaps(c, start, skip, limit, k, k' - 1);
      var a := Gathered(c, start, skip, limit, k' - 1).value;
      if |a| < limit {
        var from := if k' - 1 == start then skip else 0;
        PadZeros(a, Piece(c, k' - 1, from)[..Min(CHUNK_SIZE - from, limit - |a|)], limit);
      }
    }
  }

  lemma WrittenNothing(c: Chunks, offset: nat)
    ensures Written(c, offset, []) == c
  {
    forall k ensures k in Written(c, offset, []) <==> k in c {
      WrittenKeys(c, offset, [], k);
    }
  }

  /** Only chunk `idx` is new when `n` more bytes, all inside it, are added to what is written. */
  lemma TouchesNext(offset: nat, written: nat, n: nat, idx: nat, k: nat)
    requires n > 0 && idx == (offset + written) / CHUNK_SIZE
    requires written == 0 || (offset + written) % CHUNK_SIZE == 0
    requires n <= CHUNK_SIZE - (offset + written) % CHUNK_SIZE
    ensures Touches(k, offset, written + n) <==> Touches(k, offset, written) || k == idx
    ensures !Touches(idx, offset, written)
    ensures Touches(k, offset, written) ==> (k + 1) * CHUNK_SIZE <= offset + written
  {
  }

  ghost predicate Overlaid(old_: Bytes, buf: Bytes, at: nat, piece: Bytes) {
    |buf| == Max(|old_|, at + |piece|)
    && forall j | 0 <= j < |buf| ::
         buf[j] == if at <= j < at + |piece| then piece[j - at] else if j < |old_| then old_[j] else 0
  }

  lemma EarlierChunkSame(c: Chunks, offset: nat, data: Bytes, written: nat, n: nat, k: nat)
    requires k in c ==> |c[k]| <= CHUNK_SIZE
    requires written + n <= |data| && Touches(k, offset, written) && (k + 1) * CHUNK_SIZE <= offset + written
    ensures WrittenChunk(c, offset, data[..written + n], k) == WrittenChunk(c, offset, data[..written], k)
  {
    var a, b := WrittenChunk(c, offset, data[..written + n], k), WrittenChunk(c, offset, data[..written], k);
    assert |a| == |b|;
    forall j | 0 <= j < |a| ensures a[j] == b[j] {
      assert k * CHUNK_SIZE + j < offset + written || j >= CHUNK_SIZE;
    }
  }

  lemma NextChunkWritten(c: Chunks, offset: nat, data: Bytes, written: nat, n: nat, buf: Bytes)
    requires forall k | k in c :: |c[k]| <= CHUNK_SIZE
    requires written < |data| && (written == 0 || (offset + written) % CHUNK_SIZE == 0)
    requires n == Min(CHUNK_SIZE - (offset + written) % CHUNK_SIZE, |data| - written)
    requires
      var idx := (offset + written) / CHUNK_SIZE;
      Overlaid(if idx in c then c[idx] else [], buf, (offset + written) % CHUNK_SIZE, data[written..written + n])
    ensures Written(c, offset, data[..written])[(offset + written) / CHUNK_SIZE := buf]
            == Written(c, offset, data[..written + n])
  {
    var idx := (offset + written) / CHUNK_SIZE;
    var before, after := Written(c, offset, data[..written]), Written(c, offset, data[..written + n]);
    forall k: nat
      ensures k in after <==> k in before || k == idx
      ensures k in after ==> after[k] == if k == idx then buf else before[k]
    {
      NextChunkAt(c, offset, data, written, n, buf, k);
    }
    assert before[idx := buf].Keys == after.Keys;
  }

  lemma NextChunkAt(c: Chunks, offset: nat, data: Bytes, written: nat, n: nat, buf: Bytes, k: nat)
    requires k in c ==> |c[k]| <= CHUNK_SIZE
    requires written < |data| && (written == 0 || (offset + written) % CHUNK_SIZE == 0)
    requires n == Min(CHUNK_SIZE - (offset + written) % CHUNK_SIZE, |data| - written)
    requires
      var idx := (offset + written) / CHUNK_SIZE;
      Overlaid(if idx in c then c[idx] else [], buf, (offset + written) % CHUNK_SIZE, data[written..written + n])
    ensures
      var idx := (offset + written) / CHUNK_SIZE;
      var before, after := Written(c, offset, data[..written]), Written(c, offset, data[..written + n]);
      (k in after <==> k in before || k == idx)
      && (k in after ==> after[k] == if k == idx then buf else before[k])
  {
    var idx := (offset + written) / CHUNK_SIZE;
    TouchesNext(offset, written, n, idx, k);
    WrittenKeys(c, offset, data[..written], k);
    WrittenKeys(c, offset, data[..written + n], k);
    if k == idx {
      NextChunkContents(c, offset, data, written, n, buf);
    } else if Touches(k, offset, written) {
      EarlierChunkSame(c, offset, data, written, n, k);
    }
  }

  lemma NextChunkContents(c: Chunks, offset: nat, data: Bytes, written: nat, n: nat, buf: Bytes)
    requires written < |data| && (written == 0 || (offset + written) % CHUNK_SIZE == 0)
    requires n == Min(CHUNK_SIZE - (offset + written) % CHUNK_SIZE, |data| - written)
    requires
      var idx := (offset + written) / CHUNK_SIZE;
      Touches(idx, offset, written + n)
      && Overlaid(if idx in c then c[idx] else [], buf, (offset + written) % CHUNK_SIZE, data[written..written + n])
    ensures WrittenChunk(c, offset, data[..written + n], (offset + written) / CHUNK_SIZE) == buf
  {
    var idx, at := (offset + written) / CHUNK_SIZE, (offset + written) % CHUNK_SIZE;
    assert data[..written + n][written..] == data[written..written + n];
    ChunkIsOverlay(c, offset, data[..written + n], written, idx, at, buf);
  }

  /** In the chunk where writing goes on, `at` bytes in, what is new is the rest of the data. */
  lemma ChunkIsOverlay(c: Chunks, offset: nat, data: Bytes, written: nat, idx: nat, at: nat, buf: Bytes)
    requires written < |data| && idx * CHUNK_SIZE + at == offset + written && (written == 0 || at == 0)
    requires at + (|data| - written) <= CHUNK_SIZE && Touches(idx, offset, |data|)
    requires Overlaid(if idx in c then c[idx] else [], buf, at, data[written..])
    ensures WrittenChunk(c, offset, data, idx) == buf
  {
    var w := WrittenChunk(c, offset, data, idx);
    assert |w| == |buf|;
    forall j | 0 <= j < |w| ensures w[j] == buf[j] {
      assert offset <= idx * CHUNK_SIZE + j < offset + |data| <==> at <= j < at + (|data| - written);
    }
  }

  lemma UntouchedRow(c: Chunks, offset: nat, data: Bytes, written: nat, n: nat, idx: nat)
    requires n > 0 && idx == (offset + written) / CHUNK_SIZE && |data| == written
    requires written == 0 || (offset + written) % CHUNK_SIZE == 0
    requires n <= CHUNK_SIZE - (offset + written) % CHUNK_SIZE
    ensures idx in Written(c, offset, data) <==> idx in c
    ensures idx in c ==> Written(c, offset, data)[idx] == c[idx]
  {
    TouchesNext(offset, written, n, idx, idx);
    WrittenKeys(c, offset, data, idx);
  }

  /** Writing goes on at the start of a chunk, unless it has not begun or is done. */
  predicate AtBoundary(offset: nat, written: nat, total: nat) {
    written == 0 || written == total || (offset + written) % CHUNK_SIZE == 0
  }

  lemma NextChunkBoundary(offset: nat, written: nat, n: nat, total: nat)
    requires written < total && n == Min(CHUNK_SIZE - (offset + written) % CHUNK_SIZE, total - written)
    ensures AtBoundary(offset, written + n, total)
  {
  }

  lemma BelowCut(n: nat, k: nat)
    requires n > 0
    ensures k * CHUNK_SIZE < n <==> k <= (n - 1) / CHUNK_SIZE
  {
  }

  lemma CutRow(n: nat, k: nat, len: nat)
    requires n > 0 && k * CHUNK_SIZE < n && len <= CHUNK_SIZE
    ensures len > n - k * CHUNK_SIZE <==> k == (n - 1) / CHUNK_SIZE && n % CHUNK_SIZE > 0 && len > n % CHUNK_SIZE
    ensures len > n - k * CHUNK_SIZE ==> n - k * CHUNK_SIZE == n % CHUNK_SIZE
  {
    var last := (n - 1) / CHUNK_SIZE;
    assert last * CHUNK_SIZE < n <= (last + 1) * CHUNK_SIZE;
    if k < last {
      assert (k + 1) * CHUNK_SIZE <= last * CHUNK_SIZE;
    }
  }

  /** Deleting by index and trimming one row is the same as cutting every row at the size. */
  lemma TruncatedRows(c: Chunks, size: nat, n: nat, rows: Chunks)
    requires ValidStore(c, size) && n > 0
    requires forall k: nat :: k in rows <==> k in c && k <= (n - 1) / CHUNK_SIZE
    requires
      forall k | k in rows ::
        rows[k] == if k == (n - 1) / CHUNK_SIZE && n % CHUNK_SIZE > 0 && |c[k]| > n % CHUNK_SIZE
                   then c[k][..n % CHUNK_SIZE] else c[k]
    ensures rows == Truncated(c, n)
  {
    var cut := Truncated(c, n);
    forall k: nat ensures k in rows <==> k in cut {
      BelowCut(n, k);
    }
    forall k | k in rows ensures rows[k] == cut[k] {
      BelowCut(n, k);
      CutRow(n, k, |c[k]|);
    }
  }

  // ---- The file handle ----

  /** One inode's rows and recorded size; `size` is `None` when the inode row is gone. */
  class SqliteFile {
    var chunks: Chunks
    var size: Option<nat>
    var dirtySince: Option<int>

    ghost predicate Valid()
      reads this
    {
      size.Some? ==> ValidStore(chunks, size.value)
    }

    constructor ()
      ensures Valid() && size == Some(0) && chunks == map[] && dirtySince == None
    {
      chunks, size, dirtySince := map[], Some(0), None;
    }

    /** Zeros for the indexes `from` up to `to`, none of which has a row, as far as the read goes. */
    static method FillGap(rows: Chunks, first: nat, startOffset: nat, readSize: nat, from: nat, to: nat, sofar: Bytes)
      returns (result: Bytes, nextExpected: nat)
      requires first <= from <= to && startOffset < CHUNK_SIZE && (forall k | from <= k < to :: k !in rows)
      requires Gathered(rows, first, startOffset, readSize, from) == Ok(sofar)
      ensures from <= nextExpected <= to && Gathered(rows, first, startOffset, readSize, nextExpected) == Ok(result)
      ensures nextExpected == to || |result| >= readSize
    {
      result, nextExpected := sofar, from;
      while nextExpected < to && |result| < readSize
        invariant from <= nextExpected <= to
        invariant Gathered(rows, first, startOffset, readSize, nextExpected) == Ok(result)
      {
        var skip := if nextExpected == first then startOffset else 0;
        var zeros := Min(CHUNK_SIZE - skip, readSize - |result|);
        assert Zeros(zeros) == Piece(rows, nextExpected, skip)[..zeros];
        result := result + Zeros(zeros);
        nextExpected := nextExpected + 1;
      }
    }

    /** What a stored row adds to a read, sliced from `startOffset` if it is the first. */
    static method TakeRow(rows: Chunks, first: nat, startOffset: nat, readSize: nat, idx: nat, sofar: Bytes)
      returns (r: Result<Bytes, VfsError>)
      requires first <= idx && startOffset < CHUNK_SIZE && idx in rows && |sofar| < readSize
      requires Gathered(rows, first, startOffset, readSize, idx) == Ok(sofar)
      ensures r == Gathered(rows, first, startOffset, readSize, idx + 1)
    {
      var skip := if idx == first then startOffset else 0;
      if skip > |rows[idx]| {
        return Err(OutOfRange);
      }
      var take := Min(|rows[idx]| - skip, readSize - |sofar|);
      assert rows[idx][skip..skip + take] == Piece(rows, idx, skip)[..take];
      r := Ok(sofar + rows[idx][skip..skip + take]);
    }

    /** The row loop of a read: rows `first` up to but not including `last`, gaps filled with zeros
        when the next row arrives, and the tail padded at the end. */
    static method ReadRows(rows: Chunks, first: nat, last: nat, startOffset: nat, readSize: nat)
      returns (r: Result<Bytes, VfsError>)
      requires first <= last && startOffset < CHUNK_SIZE
      ensures r == PadTo(Gathered(rows, first, startOffset, readSize, last), readSize)
    {
      var result: Bytes := [];
      var nextExpected := first;
      var idx := first;
      while idx < last
        invariant first <= nextExpected <= idx <= last
        invariant forall k | nextExpected <= k < idx :: k !in rows
        invariant Gathered(rows, first, startOffset, readSize, nextExpected) == Ok(result)
      {
        if idx in rows {
          result, nextExpected := FillGap(rows, first, startOffset, readSize, nextExpected, idx, result);
          if |result| >= readSize {
            FullStaysFull(rows, first, startOffset, readSize, nextExpected, last);
            assert result + Zeros(0) == result;
            return Ok(result);
          }
          var more := TakeRow(rows, first, startOffset, readSize, idx, result);
          if more.Err? {
            FailureStays(rows, first, startOffset, readSize, idx + 1, last);
            return more;
          }
          result, nextExpected := more.value, idx + 1;
        }
        idx := idx + 1;
      }
      PaddingCoversGaps(rows, first, startOffset, readSize, nextExpected, last);
      return Ok(result + Zeros(readSize - |result|));
    }

    method Read(offset: nat, n: nat) returns (r: Result<Bytes, VfsError>)
      requires Valid()
      ensures r == if size.None? then Err(NotFound) else ReadResult(chunks, size.value, offset, n)
    {
      if size.None? {
        return Err(NotFound);
      }
      if offset >= size.value {
        return Ok([]);
      }
      var readSize := Min(n, size.value - offset);
      var startChunk := offset / CHUNK_SIZE;
      var endChunk := EndChunk(offset, readSize);
      r := ReadRows(chunks, startChunk, Max(endChunk + 1, startChunk), offset % CHUNK_SIZE, readSize);
    }

    /** Read-modify-write of one row; a whole chunk is replaced outright. */
    static method MergeIntoChunk(existing: Bytes, at: nat, piece: Bytes) returns (buf: Bytes)
      requires |existing| <= CHUNK_SIZE && at + |piece| <= CHUNK_SIZE
      ensures Overlaid(existing, buf, at, piece)
    {
      if |piece| == CHUNK_SIZE {
        return piece;
      }
      buf := existing;
      if |buf| < at + |piece| {
        buf := buf + Zeros(at + |piece| - |buf|);
      }
      buf := buf[..at] + piece + buf[at + |piece|..];
    }

    /** One turn of the chunk loop. */
    static method WriteRow(rows: Chunks, offset: nat, data: Bytes, c: Chunks, written: nat)
      returns (c': Chunks, written': nat)
      requires forall k | k in rows :: |rows[k]| <= CHUNK_SIZE
      requires written < |data| && AtBoundary(offset, written, |data|)
      requires c == Written(rows, offset, data[..written])
      ensures written < written' <= |data| && AtBoundary(offset, written', |data|)
      ensures c' == Written(rows, offset, data[..written'])
    {
      var chunkIdx := (offset + written) / CHUNK_SIZE;
      var offsetInChunk := (offset + written) % CHUNK_SIZE;
      var toWrite := Min(CHUNK_SIZE - offsetInChunk, |data| - written);
      UntouchedRow(rows, offset, data[..written], written, toWrite, chunkIdx);
      var existing := if chunkIdx in c then c[chunkIdx] else [];
      var buf := MergeIntoChunk(existing, offsetInChunk, data[written..written + toWrite]);
      NextChunkWritten(rows, offset, data, written, toWrite, buf);
      c' := c[chunkIdx := buf];
      NextChunkBoundary(offset, written, toWrite, |data|);
      written' := written + toWrite;
    }

    /** The chunk loop of a write. */
    static method WriteRows(rows: Chunks, offset: nat, data: Bytes) returns (c: Chunks)
      requires forall k | k in rows :: |rows[k]| <= CHUNK_SIZE
      ensures c == Written(rows, offset, data)
    {
      c := rows;
      var written := 0;
      WrittenNothing(rows, offset);
      while written < |data|
        invariant 0 <= written <= |data| && AtBoundary(offset, written, |data|)
        invariant c == Written(rows, offset, data[..written])
      {
        c, written := WriteRow(rows, offset, data, c, written);
      }
      assert data[..written] == data;
    }

    /** Writes the data chunk by chunk and marks the inode dirty. */
    method Write(offset: nat, data: Bytes, nowMs: int) returns (r: Result<nat, VfsError>)
      requires Valid()
      modifies this
      ensures Valid()
      ensures data == [] ==> r == Ok(0)
      ensures data != [] && offset + |data| > MAX_FILE_SIZE ==> r == Err(InvalidPath)
      ensures data != [] && offset + |data| <= MAX_FILE_SIZE ==>
                r == if old(size).None? then Err(NotFound) else Ok(|data|)
      ensures r.Err? || data == [] ==> chunks == old(chunks) && size == old(size) && dirtySince == old(dirtySince)
      ensures r.Ok? && data != [] ==>
                old(size).Some? && size.Some? && dirtySince == Some(nowMs)
                && Store(chunks, size.value)
                   == ApplyToStore(Store(old(chunks), old(size).value), Op.Write(offset, data))
    {
      if data == [] {
        return Ok(0);
      }
      if offset + |data| > MAX_FILE_SIZE {
        return Err(InvalidPath);
      }
      if size.None? {
        return Err(NotFound);
      }
      var rows := WriteRows(chunks, offset, data);
      WriteRefinesFlat(chunks, size.value, offset, data);
      chunks := rows;
      size := Some(Max(size.value, offset + |data|));
      dirtySince := Some(nowMs);
      return Ok(|data|);
    }

    /** Drops the rows past the new size and trims the last; does not mark the inode dirty. */
    method Truncate(n: nat)
      requires Valid()
      modifies this`chunks, this`size
      ensures Valid()
      ensures size == if old(size).Some? then Some(n) else None
      ensures old(size).Some? ==> Store(chunks, n) == ApplyToStore(Store(old(chunks), old(size).value), Op.Truncate(n))
      ensures old(size).None? ==> forall k | k in chunks :: k in old(chunks)
    {
      ghost var before := chunks;
      if n == 0 {
        chunks := map[];
      } else {
        var lastChunk := (n - 1) / CHUNK_SIZE;
        chunks := map k | k in chunks && k <= lastChunk :: chunks[k];
        var remainder := n % CHUNK_SIZE;
        if remainder > 0 && lastChunk in chunks && |chunks[lastChunk]| > remainder {
          chunks := chunks[lastChunk := chunks[lastChunk][..remainder]];
        }
        if size.Some? {
          TruncatedRows(before, size.value, n, chunks);
        }
      }
      if size.Some? {
        TruncateRefinesFlat(before, size.value, n);
        size := Some(n);
      }
    }

    /** Replaces all rows by consecutive slices of the new content. */
    method RewriteContent(content: Bytes)
      requires Valid()
      modifies this`chunks, this`size
      ensures Valid()
      ensures chunks == Sliced(content) && size == if old(size).Some? then Some(|content|) else None
    {
      var rows: Chunks := map[];
      var i := 0;
      while i < ChunkCount(|content|)
        invariant 0 <= i <= ChunkCount(|content|)
        invariant rows == SlicedBelow(content, i)
        modifies {}
      {
        InChunkCount(|content|, i);
        NextSlice(content, i);
        rows := rows[i := content[i * CHUNK_SIZE..Min((i + 1) * CHUNK_SIZE, |content|)]];
        i := i + 1;
      }
      RewriteRefinesFlat(content);
      PackedIsValid(rows, |content|);
      chunks := rows;
      if size.Some? {
        size := Some(|content|);
      }
    }

    /** The whole content as the push worker sends it: rows run together, cut at the size. */
    method ReadAllContent() returns (out: Bytes)
      requires Valid()
      ensures out == if size.None? then [] else AllContent(chunks, size.value)
    {
      if size.None? || size.value == 0 {
        return [];
      }
      out := [];
      var idx := 0;
      while idx < ChunkCount(size.value)
        invariant 0 <= idx <= ChunkCount(size.value)
        invariant out == Concatenated(chunks, idx)
      {
        if idx in chunks {
          out := out + chunks[idx];
        }
        idx := idx + 1;
      }
      if |out| > size.value {
        out := out[..size.value];
      }
    }
  }
}

/**
 * The register memory of a fake Wiimote (source/fake_wiimote.c): EEPROM, IR camera registers and
 * the extension's registers behind its cipher, with reads answered in 16-byte chunks.
 */
module Registers {
  import opened Bytes
  import opened Crypto

  const EEPROM_FREE_SIZE := 0x1700
  const REGISTERS_SIZE := 0x100
  const KEY_DATA_BEGIN := 0x40
  const KEY_DATA_END := 0x50
  const ENCRYPTION_AT := 0xF0
  const IDENTIFIER_AT := 0xFA
  const CAMERA_MODE_AT := 0x33
  const CAMERA_DATA_AT := 0x37
  const ENCRYPTION_ENABLED: byte := 0xaa

  const SPACE_EEPROM := 0
  const SPACE_I2C := 1
  const SPACE_I2C_ALT := 2
  const EEPROM_I2C_ADDR := 0x50
  const EXTENSION_I2C_ADDR := 0x52
  const CAMERA_I2C_ADDR := 0x58

  const ERROR_SUCCESS := 0
  const ERROR_BUSY := 4
  const ERROR_INVALID_SPACE := 6
  const ERROR_NACK := 7
  const ERROR_INVALID_ADDRESS := 8

  const CHUNK := 16

  /** A memory read in progress; size 0 means there is none. Address and size are 16 bits wide. */
  datatype ReadRequest = ReadRequest(space: nat, slave: nat, address: nat, size: nat)

  datatype WriteRequest = WriteRequest(space: nat, slave: nat, address: nat, size: nat, data: seq<byte>)

  datatype Memory = Memory(
    eeprom: seq<byte>,
    ir: seq<byte>,
    ext: seq<byte>,
    key: Key,
    keyDirty: bool,
    req: ReadRequest)

  /** The read-data reply report. */
  datatype Reply = Reply(buttons: word, sizeMinusOne: nat, error: nat, address: nat, data: seq<byte>)

  predicate Shaped(m: Memory) {
    && |m.eeprom| == EEPROM_FREE_SIZE && |m.ir| == REGISTERS_SIZE && |m.ext| == REGISTERS_SIZE
    && m.key.Valid()
    && m.req.address < 0x1_0000 && m.req.size < 0x1_0000
  }

  function KeyBytes(ext: seq<byte>): (s: seq<byte>)
    requires |ext| == REGISTERS_SIZE
    ensures |s| == 16
  {
    ext[KEY_DATA_BEGIN..KEY_DATA_END]
  }

  predicate Encrypted(ext: seq<byte>)
    requires |ext| == REGISTERS_SIZE
  {
    ext[ENCRYPTION_AT] == ENCRYPTION_ENABLED
  }

  /** What an encrypted read needs: key data made for some index. */
  predicate Decryptable(t: Tables, ext: seq<byte>)
    requires |ext| == REGISTERS_SIZE
  {
    Encrypted(ext) ==> MadeForSomeIndex(t, KeyBytes(ext))
  }

  /** The cache invariant: a clean cached key is the key of the current key bytes. */
  ghost predicate KeyAgrees(t: Tables, m: Memory)
    requires t.Valid() && Shaped(m)
  {
    !m.keyDirty ==> MadeForSomeIndex(t, KeyBytes(m.ext)) && m.key == KeyOf(t, KeyBytes(m.ext))
  }

  // ---------------------------------------------------------------- access

  /** extension_read_data for a range inside the registers; fills the key cache if needed. */
  ghost function ReadExt(t: Tables, m: Memory, address: nat, size: nat): (r: (Memory, seq<byte>))
    requires t.Valid() && Shaped(m) && address + size <= REGISTERS_SIZE && Decryptable(t, m.ext)
    ensures |r.1| == size && Shaped(r.0)
  {
    var plain := m.ext[address..address + size];
    if !Encrypted(m.ext) then (m, plain)
    else
      var key := if m.keyDirty then KeyOf(t, KeyBytes(m.ext)) else m.key;
      (m.(key := key, keyDirty := false), Encrypt(key, address, plain))
  }

  /** extension_write_data: a write that touches the key area makes the cached key stale. */
  function WriteExt(m: Memory, address: nat, src: seq<byte>): (r: Memory)
    requires Shaped(m) && address + |src| <= REGISTERS_SIZE
    ensures Shaped(r)
  {
    m.(ext := Splice(m.ext, address, src),
       keyDirty := m.keyDirty || (address + |src| > KEY_DATA_BEGIN && address < KEY_DATA_END))
  }

  predicate I2c(space: nat) { space == SPACE_I2C || space == SPACE_I2C_ALT }

  predicate AtExt(r: ReadRequest) { I2c(r.space) && r.slave == EXTENSION_I2C_ADDR }

  predicate AtCamera(r: ReadRequest) { I2c(r.space) && r.slave == CAMERA_I2C_ADDR }

  /** The part of a request answered next. */
  function ChunkSize(r: ReadRequest): nat { Min(CHUNK, r.size) }

  /** Whether the next chunk reads the extension registers. */
  predicate ChunkReadsExt(r: ReadRequest) {
    AtExt(r) && r.size > 0 && r.address + ChunkSize(r) <= REGISTERS_SIZE
  }

  /** The error the next chunk meets. The EEPROM checks the whole rest of the request, the
      register banks only the chunk; an unknown slave is not an error. */
  function ChunkError(r: ReadRequest): nat {
    if r.space == SPACE_EEPROM then
      if r.address + r.size > EEPROM_FREE_SIZE then ERROR_INVALID_ADDRESS else ERROR_SUCCESS
    else if I2c(r.space) then
      if r.slave == EEPROM_I2C_ADDR then ERROR_INVALID_ADDRESS
      else if (AtExt(r) || AtCamera(r)) && r.address + ChunkSize(r) > REGISTERS_SIZE then ERROR_NACK
      else ERROR_SUCCESS
    else ERROR_INVALID_SPACE
  }

  /** The bytes of the next chunk, when it meets no error. */
  ghost function ReadChunk(t: Tables, m: Memory): (r: (Memory, seq<byte>))
    requires t.Valid() && Shaped(m) && m.req.size > 0 && ChunkError(m.req) == ERROR_SUCCESS
    requires ChunkReadsExt(m.req) ==> Decryptable(t, m.ext)
    ensures |r.1| == ChunkSize(m.req) && Shaped(r.0)
  {
    var a, n := m.req.address, ChunkSize(m.req);
    if m.req.space == SPACE_EEPROM then (m, m.eeprom[a..a + n])
    else if AtExt(m.req) then ReadExt(t, m, a, n)
    else if AtCamera(m.req) then (m, m.ir[a..a + n])
    else (m, Fill(n, 0))
  }

  function Advance(r: ReadRequest): ReadRequest {
    r.(address := (r.address + ChunkSize(r)) % 0x1_0000, size := r.size - ChunkSize(r))
  }

  function Padded(data: seq<byte>): (r: seq<byte>)
    requires |data| <= CHUNK
    ensures |r| == CHUNK
  {
    data + Fill(CHUNK - |data|, 0)
  }

  /** fake_wiimote_process_read_request: one reply, and the request moves on or is dropped. */
  ghost function ProcessRead(t: Tables, m: Memory, buttons: word): (r: (Memory, Option<Reply>))
    requires t.Valid() && Shaped(m) && (ChunkReadsExt(m.req) ==> Decryptable(t, m.ext))
    ensures Shaped(r.0)
    ensures r.1.None? <==> m.req.size == 0
  {
    var error := ChunkError(m.req);
    if m.req.size == 0 then (m, None)
    else if error != ERROR_SUCCESS then
      (m.(req := m.req.(size := 0)),
       Some(Reply(buttons, CHUNK - 1, error, m.req.address, Fill(CHUNK, 0))))
    else
      var (m', data) := ReadChunk(t, m);
      (m'.(req := Advance(m.req)),
       Some(Reply(buttons, |data| - 1, ERROR_SUCCESS, m.req.address, Padded(data))))
  }

  function AsRead(w: WriteRequest): ReadRequest {
    ReadRequest(w.space, w.slave, w.address, w.size)
  }

  /** fake_wiimote_process_write_request: None if ignored, else the error it is acked with. */
  function ProcessWrite(m: Memory, w: WriteRequest): (r: (Memory, Option<nat>))
    requires Shaped(m) && |w.data| == CHUNK
    ensures Shaped(r.0)
  {
    if w.size == 0 || w.size > CHUNK then (m, None)
    else if ChunkError(AsRead(w)) != ERROR_SUCCESS then (m, Some(ChunkError(AsRead(w))))
    else if w.space == SPACE_EEPROM then
      (m.(eeprom := Splice(m.eeprom, w.address, w.data[..w.size])), Some(ERROR_SUCCESS))
    else if AtExt(AsRead(w)) then
      (WriteExt(m, w.address, w.data[..w.size]), Some(ERROR_SUCCESS))
    else if AtCamera(AsRead(w)) then
      (m.(ir := Splice(m.ir, w.address, w.data[..w.size])), Some(ERROR_SUCCESS))
    else (m, Some(ERROR_SUCCESS))
  }

  // ---------------------------------------------------------------- the cached key

  lemma ReadExtKeepsKey(t: Tables, m: Memory, address: nat, size: nat)
    requires t.Valid() && Shaped(m) && address + size <= REGISTERS_SIZE && Decryptable(t, m.ext)
    requires KeyAgrees(t, m)
    ensures KeyAgrees(t, ReadExt(t, m, address, size).0)
    ensures ReadExt(t, m, address, size).0.ext == m.ext
    ensures Encrypted(m.ext) ==>
              ReadExt(t, m, address, size).1 ==
              Encrypt(KeyOf(t, KeyBytes(m.ext)), address, m.ext[address..address + size])
  {
    hide KeyOf;
  }

  /** However a write overlaps the key bytes, the cache never vouches for a stale key. */
  lemma WriteExtKeepsKey(t: Tables, m: Memory, address: nat, src: seq<byte>)
    requires t.Valid() && Shaped(m) && address + |src| <= REGISTERS_SIZE && KeyAgrees(t, m)
    ensures KeyAgrees(t, WriteExt(m, address, src))
  {
    hide KeyOf;
    var m' := WriteExt(m, address, src);
    if !m'.keyDirty {
      assert KeyBytes(m'.ext) == KeyBytes(m.ext);
    }
  }

  lemma ProcessReadKeepsKey(t: Tables, m: Memory, buttons: word)
    requires t.Valid() && Shaped(m) && (ChunkReadsExt(m.req) ==> Decryptable(t, m.ext)) && KeyAgrees(t, m)
    ensures KeyAgrees(t, ProcessRead(t, m, buttons).0)
    ensures SameRegisters(ProcessRead(t, m, buttons).0, m)
  {
    hide KeyOf;
    if ChunkReadsExt(m.req) {
      ReadExtKeepsKey(t, m, m.req.address, ChunkSize(m.req));
    }
  }

  lemma ProcessWriteKeepsKey(t: Tables, m: Memory, w: WriteRequest)
    requires t.Valid() && Shaped(m) && |w.data| == CHUNK && KeyAgrees(t, m)
    ensures KeyAgrees(t, ProcessWrite(m, w).0)
    ensures ProcessWrite(m, w).0.req == m.req
  {
    hide KeyOf;
    if 0 < w.size <= CHUNK && ChunkError(AsRead(w)) == ERROR_SUCCESS && AtExt(AsRead(w)) {
      WriteExtKeepsKey(t, m, w.address, w.data[..w.size]);
    }
  }

  // ---------------------------------------------------------------- a read as one atomic access

  predicate SameRegisters(m: Memory, m': Memory) {
    m.eeprom == m'.eeprom && m.ir == m'.ir && m.ext == m'.ext
  }

  /** How many bytes from the request's address on exist. */
  function Available(r: ReadRequest): nat {
    if r.space == SPACE_EEPROM then Left(EEPROM_FREE_SIZE, r.address)
    else if AtExt(r) || AtCamera(r) then Left(REGISTERS_SIZE, r.address)
    else r.size
  }

  function Left(size: nat, address: nat): nat {
    if address <= size then size - address else 0
  }

  /** The error of the request taken as one access. */
  function WholeError(r: ReadRequest): nat {
    if r.space == SPACE_EEPROM then
      if r.address + r.size > EEPROM_FREE_SIZE then ERROR_INVALID_ADDRESS else ERROR_SUCCESS
    else if !I2c(r.space) then ERROR_INVALID_SPACE
    else if r.slave == EEPROM_I2C_ADDR then ERROR_INVALID_ADDRESS
    else if (AtExt(r) || AtCamera(r)) && r.address + r.size > REGISTERS_SIZE then ERROR_NACK
    else ERROR_SUCCESS
  }

  function Chunks(n: nat): nat { (n + CHUNK - 1) / CHUNK }

  /** Chunks answered with data. A request that runs past a register bank is answered up to the
      last full chunk inside; any other bad request gets no data at all. */
  function GoodChunks(r: ReadRequest): nat {
    if WholeError(r) == ERROR_SUCCESS then Chunks(r.size)
    else if WholeError(r) == ERROR_NACK then Available(r) / CHUNK
    else 0
  }

  function TotalReplies(r: ReadRequest): nat {
    GoodChunks(r) + if WholeError(r) == ERROR_SUCCESS then 0 else 1
  }

  /** Byte i of the request, read at once from memory m: encrypted extension bytes are encrypted
      under the address they have in the whole block. */
  ghost function ByteOf(t: Tables, m: Memory, r: ReadRequest, i: nat): byte
    requires t.Valid() && Shaped(m) && i < Available(r) && (AtExt(r) ==> Decryptable(t, m.ext))
  {
    if r.space == SPACE_EEPROM then m.eeprom[r.address + i]
    else if AtExt(r) then
      if Encrypted(m.ext) then EncryptByte(KeyOf(t, KeyBytes(m.ext)), r.address + i, m.ext[r.address + i])
      else m.ext[r.address + i]
    else if AtCamera(r) then m.ir[r.address + i]
    else 0
  }

  ghost function BytesOf(t: Tables, m: Memory, r: ReadRequest, lo: nat, hi: nat): (s: seq<byte>)
    requires t.Valid() && Shaped(m) && lo <= hi <= Available(r) && (AtExt(r) ==> Decryptable(t, m.ext))
    ensures |s| == hi - lo
  {
    seq(hi - lo, i requires 0 <= i < hi - lo => ByteOf(t, m, r, lo + i))
  }

  function ChunkEnd(r: ReadRequest, k: nat): nat { Min(CHUNK * (k + 1), r.size) }

  lemma ChunkInside(r: ReadRequest, k: nat)
    requires k < GoodChunks(r)
    ensures CHUNK * k < ChunkEnd(r, k) <= Available(r) && CHUNK * k < r.size
    ensures WholeError(r) == ERROR_NACK ==> CHUNK * (k + 1) <= Available(r) < r.size
  {
  }

  /** The k-th reply to a request, computed from the memory at request time. */
  ghost function ExpectedReply(t: Tables, m: Memory, r: ReadRequest, buttons: word, k: nat): Reply
    requires t.Valid() && Shaped(m) && k < TotalReplies(r) && (AtExt(r) ==> Decryptable(t, m.ext))
  {
    var address := (r.address + CHUNK * k) % 0x1_0000;
    if k < GoodChunks(r) then
      ChunkInside(r, k);
      var data := BytesOf(t, m, r, CHUNK * k, ChunkEnd(r, k));
      Reply(buttons, |data| - 1, ERROR_SUCCESS, address, Padded(data))
    else
      Reply(buttons, CHUNK - 1, WholeError(r), address, Fill(CHUNK, 0))
  }

  /** The request as it stands after k replies. */
  function Remaining(r: ReadRequest, k: nat): ReadRequest
    requires k <= TotalReplies(r)
  {
    if k <= GoodChunks(r) then
      r.(address := (r.address + Min(CHUNK * k, r.size)) % 0x1_0000,
         size := if CHUNK * k <= r.size then r.size - CHUNK * k else 0)
    else r.(address := (r.address + CHUNK * GoodChunks(r)) % 0x1_0000, size := 0)
  }

  /** m is the memory m0 after k replies to r. */
  ghost predicate Reading(t: Tables, m0: Memory, r: ReadRequest, m: Memory, k: nat)
    requires t.Valid()
  {
    && Shaped(m0) && Shaped(m) && SameRegisters(m0, m) && KeyAgrees(t, m)
    && (AtExt(r) ==> Decryptable(t, m0.ext))
    && r.address < 0x1_0000 && r.size < 0x1_0000
    && k <= TotalReplies(r) && m.req == Remaining(r, k)
  }

  lemma GoodChunkRequest(r: ReadRequest, k: nat)
    requires r.address < 0x1_0000 && r.size < 0x1_0000 && k < GoodChunks(r)
    ensures var q := Remaining(r, k);
            && ChunkError(q) == ERROR_SUCCESS && q.size > 0
            && ChunkSize(q) == ChunkEnd(r, k) - CHUNK * k
            && Advance(q) == Remaining(r, k + 1)
            && (Available(r) < 0x1_0000 && r.slave == q.slave && (r.space == SPACE_EEPROM || AtExt(r) || AtCamera(r)) ==>
                  q.address == r.address + CHUNK * k)
  {
    ChunkInside(r, k);
  }

  lemma BadChunkRequest(r: ReadRequest)
    requires r.address < 0x1_0000 && 0 < r.size < 0x1_0000 && WholeError(r) != ERROR_SUCCESS
    ensures var q := Remaining(r, GoodChunks(r));
            && ChunkError(q) == WholeError(r) && q.size > 0
            && q.address == (r.address + CHUNK * GoodChunks(r)) % 0x1_0000
            && !ChunkReadsExt(q)
  {
  }

  /** One call produces exactly the next expected reply. */
  lemma NextReply(t: Tables, m0: Memory, r: ReadRequest, m: Memory, k: nat, buttons: word)
    requires t.Valid() && Reading(t, m0, r, m, k) && k < TotalReplies(r) && r.size > 0
    ensures ChunkReadsExt(m.req) ==> Decryptable(t, m.ext)
    ensures var (m', reply) := ProcessRead(t, m, buttons);
            reply == Some(ExpectedReply(t, m0, r, buttons, k)) && Reading(t, m0, r, m', k + 1)
  {
    hide KeyOf, BytesOf;
    if k < GoodChunks(r) {
      GoodChunkRequest(r, k);
      ChunkInside(r, k);
      NextData(t, m0, r, m, k);
    } else {
      BadChunkRequest(r);
    }
    ProcessReadKeepsKey(t, m, buttons);
  }

  lemma NextData(t: Tables, m0: Memory, r: ReadRequest, m: Memory, k: nat)
    requires t.Valid() && Reading(t, m0, r, m, k) && k < GoodChunks(r)
    requires ChunkError(m.req) == ERROR_SUCCESS && CHUNK * k < ChunkEnd(r, k) <= Available(r)
    requires ChunkSize(m.req) == ChunkEnd(r, k) - CHUNK * k
    requires r.space == SPACE_EEPROM || AtExt(r) || AtCamera(r) ==> m.req.address == r.address + CHUNK * k
    ensures ReadChunk(t, m).1 == BytesOf(t, m0, r, CHUNK * k, ChunkEnd(r, k))
  {
    hide KeyOf, ReadChunk, ByteOf, Decryptable, KeyAgrees, ChunkError;
    var lo, hi := CHUNK * k, ChunkEnd(r, k);
    forall i | 0 <= i < hi - lo ensures ReadChunk(t, m).1[i] == ByteOf(t, m0, r, lo + i) {
      ChunkByte(t, m, i);
      SameByte(t, m0, r, m, lo, i);
    }
  }

  /** A chunk is read byte by byte from the request as it stands. */
  lemma ChunkByte(t: Tables, m: Memory, i: nat)
    requires t.Valid() && Shaped(m) && KeyAgrees(t, m) && m.req.size > 0 && ChunkError(m.req) == ERROR_SUCCESS
    requires (AtExt(m.req) ==> Decryptable(t, m.ext)) && i < ChunkSize(m.req) && i < Available(m.req)
    ensures ReadChunk(t, m).1[i] == ByteOf(t, m, m.req, i)
  {
    hide KeyOf, EncryptByte, Decryptable;
  }

  /** Byte i from lo bytes further on. */
  lemma SameByte(t: Tables, m0: Memory, r: ReadRequest, m: Memory, lo: nat, i: nat)
    requires t.Valid() && Shaped(m0) && Shaped(m) && SameRegisters(m0, m) && (AtExt(r) ==> Decryptable(t, m.ext))
    requires lo + i < Available(r) && m.req.space == r.space && m.req.slave == r.slave
    requires r.space == SPACE_EEPROM || AtExt(r) || AtCamera(r) ==> m.req.address == r.address + lo
    requires i < Available(m.req)
    ensures ByteOf(t, m, m.req, i) == ByteOf(t, m0, r, lo + i)
  {
    hide KeyOf, EncryptByte, Decryptable;
  }

  // ---------------------------------------------------------------- reassembly

  /** The first n replies' data, put together. */
  ghost function Received(t: Tables, m: Memory, r: ReadRequest, buttons: word, n: nat): seq<byte>
    requires t.Valid() && Shaped(m) && n <= GoodChunks(r) && (AtExt(r) ==> Decryptable(t, m.ext))
  {
    if n == 0 then []
    else
      var reply := ExpectedReply(t, m, r, buttons, n - 1);
      Received(t, m, r, buttons, n - 1) + reply.data[..Min(CHUNK, reply.sizeMinusOne + 1)]
  }

  lemma {:induction false} ReceivedIsAtomic(t: Tables, m: Memory, r: ReadRequest, buttons: word, n: nat)
    requires t.Valid() && Shaped(m) && n <= GoodChunks(r) && (AtExt(r) ==> Decryptable(t, m.ext))
    ensures Min(CHUNK * n, r.size) <= Available(r)
    ensures Received(t, m, r, buttons, n) == BytesOf(t, m, r, 0, Min(CHUNK * n, r.size))
  {
    hide KeyOf, ByteOf, GoodChunks, Available, BytesOf, Padded, Decryptable;
    if n > 0 {
      ReceivedIsAtomic(t, m, r, buttons, n - 1);
      ChunkInside(r, n - 1);
      var lo, hi := CHUNK * (n - 1), ChunkEnd(r, n - 1);
      PaddedPrefix(BytesOf(t, m, r, lo, hi));
      BytesJoin(t, m, r, lo, hi);
    }
  }

  lemma PaddedPrefix(data: seq<byte>)
    requires 0 < |data| <= CHUNK
    ensures Padded(data)[..Min(CHUNK, |data| - 1 + 1)] == data
  {
  }

  lemma BytesJoin(t: Tables, m: Memory, r: ReadRequest, lo: nat, hi: nat)
    requires t.Valid() && Shaped(m) && lo <= hi <= Available(r) && (AtExt(r) ==> Decryptable(t, m.ext))
    ensures BytesOf(t, m, r, 0, lo) + BytesOf(t, m, r, lo, hi) == BytesOf(t, m, r, 0, hi)
  {
    hide ByteOf;
  }

  /** An in-range request of any size is answered by exactly ceil(n/16) successful replies whose
      data concatenates to the whole block read (and encrypted) at once. */
  lemma InRangeReadIsAtomic(t: Tables, m: Memory, r: ReadRequest, buttons: word)
    requires t.Valid() && Shaped(m) && (AtExt(r) ==> Decryptable(t, m.ext))
    requires WholeError(r) == ERROR_SUCCESS
    ensures TotalReplies(r) == GoodChunks(r) == Chunks(r.size)
    ensures CHUNK * (Chunks(r.size) - 1) < r.size <= CHUNK * Chunks(r.size)
    ensures r.size <= Available(r)
    ensures Received(t, m, r, buttons, TotalReplies(r)) == BytesOf(t, m, r, 0, r.size)
  {
    hide KeyOf;
    ReceivedIsAtomic(t, m, r, buttons, GoodChunks(r));
  }

  /** The addressed registers read at once, encrypted as one block where the cipher is on. */
  ghost function Snapshot(t: Tables, m: Memory, r: ReadRequest): (s: seq<byte>)
    requires t.Valid() && Shaped(m) && WholeError(r) == ERROR_SUCCESS && (AtExt(r) ==> Decryptable(t, m.ext))
    ensures |s| == r.size
  {
    var end := r.address + r.size;
    if r.space == SPACE_EEPROM then m.eeprom[r.address..end]
    else if AtExt(r) then
      if Encrypted(m.ext) then Encrypt(KeyOf(t, KeyBytes(m.ext)), r.address, m.ext[r.address..end])
      else m.ext[r.address..end]
    else if AtCamera(r) then m.ir[r.address..end]
    else Fill(r.size, 0)
  }

  /** The bytes of a whole in-range request are that block, and the host gets the plain extension
      registers by decrypting it as one block. */
  lemma AtomicBlock(t: Tables, m: Memory, r: ReadRequest)
    requires t.Valid() && Shaped(m) && (AtExt(r) ==> Decryptable(t, m.ext))
    requires WholeError(r) == ERROR_SUCCESS
    ensures r.size <= Available(r) && BytesOf(t, m, r, 0, r.size) == Snapshot(t, m, r)
    ensures AtExt(r) && Encrypted(m.ext) ==>
              Decrypt(KeyOf(t, KeyBytes(m.ext)), r.address, Snapshot(t, m, r)) == m.ext[r.address..r.address + r.size]
  {
    hide KeyOf, EncryptByte;
    assert BytesOf(t, m, r, 0, r.size) == Snapshot(t, m, r);
    if AtExt(r) && Encrypted(m.ext) {
      DecryptInvertsEncrypt(KeyOf(t, KeyBytes(m.ext)), r.address, m.ext[r.address..r.address + r.size]);
    }
  }
}

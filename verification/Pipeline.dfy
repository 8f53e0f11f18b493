/** Compression, the encryption envelope and the storage pipeline
    (crates/openvault-core/src/compress.rs, crypto.rs and pipeline.rs). */
module Pipeline {
  import opened Common
  import opened EncryptedStream

  // ---------------------------------------------------------------- compression

  const ZSTD_MAGIC: Bytes := [0x28, 0xb5, 0x2f, 0xfd]
  const LZ4_MAGIC: Bytes := [0x04, 0x22, 0x4d, 0x18]

  /** The compression libraries: zstd frames at a level, and lz4 blocks with their size. */
  datatype Libraries = Libraries(zstdEncode: (int, Bytes) -> Bytes, zstdDecode: Bytes -> Option<Bytes>,
                                 lz4Pack: Bytes -> Bytes, lz4Unpack: Bytes -> Option<Bytes>)

  /** What is assumed of them. A zstd frame starts with its magic number (section 3.1.1 of
      RFC 8878). */
  ghost predicate Lossless(lib: Libraries) {
    && (forall level, data :: lib.zstdDecode(lib.zstdEncode(level, data)) == Some(data))
    && (forall level, data :: ZSTD_MAGIC <= lib.zstdEncode(level, data))
    && (forall data :: lib.lz4Unpack(lib.lz4Pack(data)) == Some(data))
  }

  datatype Format = ZstdFormat | Lz4Format

  datatype Compressor = Zstd(level: int) | Lz4(highCompression: bool)

  function DetectFormat(data: Bytes): Option<Format> {
    if |data| < 4 then None
    else if data[..4] == ZSTD_MAGIC then Some(ZstdFormat)
    else if data[..4] == LZ4_MAGIC then Some(Lz4Format)
    else None
  }

  function Compress(lib: Libraries, c: Compressor, data: Bytes): Bytes {
    match c
    case Zstd(level) => lib.zstdEncode(level, data)
    case Lz4(_) => LZ4_MAGIC + lib.lz4Pack(data)
  }

  function Decompress(lib: Libraries, c: Compressor, data: Bytes): Option<Bytes> {
    match c
    case Zstd(_) => if |data| >= 4 && data[..4] != ZSTD_MAGIC then None else lib.zstdDecode(data)
    case Lz4(_) => if |data| < 4 || data[..4] != LZ4_MAGIC then None else lib.lz4Unpack(data[4..])
  }

  function AutoDecompress(lib: Libraries, data: Bytes): Option<Bytes> {
    match DetectFormat(data)
    case Some(ZstdFormat) => Decompress(lib, Zstd(3), data)
    case Some(Lz4Format) => Decompress(lib, Lz4(false), data)
    case None => None
  }

  /** `CompressedStorage::retrieve_file` on the stored bytes. */
  function DecompressStored(lib: Libraries, data: Bytes): Option<Bytes> {
    if DetectFormat(data).None? then Some(data) else AutoDecompress(lib, data)
  }

  /** What a compressor wrote is recognised, and its own and the automatic decompressor
      give the data back; any other compressor's decompressor refuses it. */
  lemma CompressedIsRecognised(lib: Libraries, c: Compressor, d: Compressor, data: Bytes)
    requires Lossless(lib)
    ensures var z := Compress(lib, c, data);
      && DetectFormat(z) == Some(if c.Zstd? then ZstdFormat else Lz4Format)
      && AutoDecompress(lib, z) == Some(data)
      && Decompress(lib, d, z) == if c.Zstd? == d.Zstd? then Some(data) else None
  {
    var z := Compress(lib, c, data);
    match c
    case Zstd(level) =>
      assert z == ZSTD_MAGIC + z[4..];
      assert z[..4] == ZSTD_MAGIC;
      MagicsDiffer();
    case Lz4(_) =>
      assert z[..4] == LZ4_MAGIC && z[4..] == lib.lz4Pack(data);
      MagicsDiffer();
  }

  lemma MagicsDiffer()
    ensures ZSTD_MAGIC != LZ4_MAGIC
  {
    assert ZSTD_MAGIC[0] != LZ4_MAGIC[0];
  }

  /** A compressing storage gives back what it stored with either compressor. Data stored
      without compression comes back as it was exactly when the library whose magic number
      it begins with, if any, takes it for a frame of itself. */
  lemma CompressedStorageRoundTrip(lib: Libraries, c: Compressor, data: Bytes)
    requires Lossless(lib)
    ensures DecompressStored(lib, Compress(lib, c, data)) == Some(data)
    ensures DecompressStored(lib, data) == Some(data) <==>
      && (ZSTD_MAGIC <= data ==> lib.zstdDecode(data) == Some(data))
      && (LZ4_MAGIC <= data ==> lib.lz4Unpack(data[4..]) == Some(data))
  {
    CompressedIsRecognised(lib, c, c, data);
    MagicsDiffer();
    Begins(ZSTD_MAGIC, data);
    Begins(LZ4_MAGIC, data);
  }

  lemma Begins(magic: Bytes, data: Bytes)
    requires |magic| == 4
    ensures magic <= data <==> |data| >= 4 && data[..4] == magic
  {}

  /** So a compressed file that is kept as a file of its own, and was stored before
      compression was switched on, comes back unpacked, as its content. */
  lemma ArchivesComeBackUnpacked(lib: Libraries, c: Compressor, content: Bytes)
    requires Lossless(lib)
    ensures var archive := Compress(lib, c, content);
      && DecompressStored(lib, archive) == Some(content)
      && (DecompressStored(lib, archive) == Some(archive) <==> archive == content)
  {
    CompressedStorageRoundTrip(lib, c, content);
  }

  // ---------------------------------------------------------------- the envelope

  datatype EncryptedData = EncryptedData(ciphertext: Bytes, nonce: Bytes)

  function BigEndian(n: int): Bytes {
    [ToByte(n / 256 % 256), ToByte(n % 256)]
  }

  function FromBigEndian(hi: Byte, lo: Byte): int {
    hi as int * 256 + lo as int
  }

  /** `to_bytes`: the nonce's length as a u16, which wraps, then nonce and ciphertext. */
  function ToBytes(d: EncryptedData): Bytes {
    BigEndian(|d.nonce| % 65536) + d.nonce + d.ciphertext
  }

  function FromBytes(data: Bytes): Option<EncryptedData> {
    if |data| < 2 then None else SplitAt(data, FromBigEndian(data[0], data[1]))
  }

  function SplitAt(data: Bytes, n: int): Option<EncryptedData> {
    if n < 0 || |data| < 2 + n then None else Some(EncryptedData(data[2 + n..], data[2..2 + n]))
  }

  lemma BigEndianBack(n: int)
    requires 0 <= n < 65536
    ensures FromBigEndian(BigEndian(n)[0], BigEndian(n)[1]) == n
  {
    ByteRoundTrip(n / 256);
    ByteRoundTrip(n % 256);
    assert n / 256 % 256 == n / 256;
  }

  /** The envelope decodes to what was encoded exactly when the nonce is shorter than 65536
      bytes: its length is kept in 16 bits. */
  lemma EnvelopeRoundTrip(d: EncryptedData)
    ensures FromBytes(ToBytes(d)) == Some(d) <==> |d.nonce| < 65536
  {
    var n := |d.nonce| % 65536;
    BigEndianBack(n);
    Decodes(BigEndian(n), d.nonce + d.ciphertext, n);
    AppendAssociates(BigEndian(n), d.nonce, d.ciphertext);
    if n == |d.nonce| {
      assert (d.nonce + d.ciphertext)[..n] == d.nonce && (d.nonce + d.ciphertext)[n..] == d.ciphertext;
    }
  }

  lemma Decodes(head: Bytes, body: Bytes, n: int)
    requires |head| == 2 && FromBigEndian(head[0], head[1]) == n && 0 <= n <= |body|
    ensures FromBytes(head + body) == Some(EncryptedData(body[n..], body[..n]))
  {
    HeadAndBody(head, body, n);
    DecodesAt(head + body, n);
  }

  lemma HeadAndBody(head: Bytes, body: Bytes, n: int)
    requires |head| == 2 && 0 <= n <= |body|
    ensures (head + body)[0] == head[0] && (head + body)[1] == head[1]
    ensures (head + body)[2..2 + n] == body[..n] && (head + body)[2 + n..] == body[n..]
  {}

  lemma DecodesAt(data: Bytes, n: int)
    requires 0 <= n && 2 + n <= |data| && FromBigEndian(data[0], data[1]) == n
    ensures FromBytes(data) == Some(EncryptedData(data[2 + n..], data[2..2 + n]))
  {}

  /** The layout under a nonce of 12 bytes: its length as 0 and 12, the nonce, the ciphertext. */
  lemma EnvelopeLayout(d: EncryptedData)
    requires |d.nonce| == 12
    ensures ToBytes(d) == [0, 12] + d.nonce + d.ciphertext
  {
    ByteRoundTrip(12);
    ByteRoundTrip(0);
    ByteValue(ToByte(12), 12);
    ByteValue(ToByte(0), 0);
  }

  /** Every envelope that decodes is the encoding of what it decodes to. */
  lemma EnvelopeCanonical(data: Bytes)
    requires FromBytes(data).Some?
    ensures ToBytes(FromBytes(data).value) == data
  {
    var hi, lo := data[0], data[1];
    var n := hi as int * 256 + lo as int;
    BigEndianForth(hi, lo);
    EnvelopeOf(data, n);
  }

  lemma EnvelopeOf(data: Bytes, n: int)
    requires 0 <= n < 65536 && 2 + n <= |data| && BigEndian(n) == data[..2]
    ensures ToBytes(EncryptedData(data[2 + n..], data[2..2 + n])) == data
  {
    assert |data[2..2 + n]| % 65536 == n;
    Reassembled(data, n);
  }

  lemma Reassembled(data: Bytes, n: int)
    requires 0 <= n && 2 + n <= |data|
    ensures data[..2] + data[2..2 + n] + data[2 + n..] == data
  {}

  lemma BigEndianForth(hi: Byte, lo: Byte)
    ensures 0 <= hi as int * 256 + lo as int < 65536
    ensures BigEndian(hi as int * 256 + lo as int) == [hi, lo]
  {
    ByteRoundTrip(hi as int);
    ByteRoundTrip(lo as int);
    ByteValue(ToByte(hi as int), hi);
    ByteValue(ToByte(lo as int), lo);
    Halves(hi as int, lo as int);
  }

  lemma Halves(hi: int, lo: int)
    requires 0 <= hi < 256 && 0 <= lo < 256
    ensures (hi * 256 + lo) / 256 % 256 == hi && (hi * 256 + lo) % 256 == lo
  {}

  // ---------------------------------------------------------------- the pipeline

  /** A storage pipeline; both steps are optional. */
  datatype Config = Config(compressor: Option<Compressor>, crypto: Option<Cipher>)

  /** `encrypt_to_bytes` under a nonce drawn for the purpose. */
  function EncryptToBytes(c: Cipher, nonce: Bytes, data: Bytes): Bytes {
    ToBytes(EncryptedData(c.seal(nonce, data), nonce))
  }

  function DecryptFromBytes(c: Cipher, data: Bytes): Option<Bytes> {
    var d := FromBytes(data);
    if d.None? || |d.value.nonce| != NONCE then None else c.open(d.value.nonce, d.value.ciphertext)
  }

  method ProcessStore(lib: Libraries, p: Config, nonce: Bytes, data: Bytes) returns (processed: Bytes)
    ensures processed == Stored(lib, p, nonce, data)
  {
    processed := data;
    if p.compressor.Some? {
      processed := Compress(lib, p.compressor.value, processed);
    }
    if p.crypto.Some? {
      processed := EncryptToBytes(p.crypto.value, nonce, processed);
    }
  }

  method ProcessRetrieve(lib: Libraries, p: Config, data: Bytes) returns (r: Option<Bytes>)
    ensures r == Retrieved(lib, p, data)
  {
    var processed := data;
    if p.crypto.Some? {
      var plain := DecryptFromBytes(p.crypto.value, processed);
      if plain.None? {
        return None;
      }
      processed := plain.value;
    }
    if p.compressor.Some? {
      var unpacked := Decompress(lib, p.compressor.value, processed);
      if unpacked.Some? {
        processed := unpacked.value;
      } else if DetectFormat(processed).Some? {
        var other := AutoDecompress(lib, processed);
        if other.None? {
          return None;
        }
        processed := other.value;
      }
    }
    return Some(processed);
  }

  function Packed(lib: Libraries, c: Option<Compressor>, data: Bytes): Bytes {
    if c.None? then data else Compress(lib, c.value, data)
  }

  function Unpacked(lib: Libraries, c: Option<Compressor>, data: Bytes): Option<Bytes> {
    if c.None? then Some(data)
    else
      var own := Decompress(lib, c.value, data);
      if own.Some? then own else DecompressStored(lib, data)
  }

  function Stored(lib: Libraries, p: Config, nonce: Bytes, data: Bytes): Bytes {
    var packed := Packed(lib, p.compressor, data);
    if p.crypto.None? then packed else EncryptToBytes(p.crypto.value, nonce, packed)
  }

  function Retrieved(lib: Libraries, p: Config, data: Bytes): Option<Bytes> {
    var plain := if p.crypto.None? then Some(data) else DecryptFromBytes(p.crypto.value, data);
    if plain.None? then None else Unpacked(lib, p.compressor, plain.value)
  }

  /** Encryption and its envelope drop out. */
  lemma DecryptsBack(c: Cipher, nonce: Bytes, data: Bytes)
    requires Inverts(c) && |nonce| == NONCE
    ensures DecryptFromBytes(c, EncryptToBytes(c, nonce, data)) == Some(data)
  {
    EnvelopeRoundTrip(EncryptedData(c.seal(nonce, data), nonce));
  }

  /** The pipeline across configurations. With the same cipher, or none, what is read back is
      what the reader's decompression makes of what the writer's compression made. So data
      written with any compressor is read back by a pipeline with any compressor. */
  lemma PipelineRoundTrip(lib: Libraries, w: Config, r: Config, nonce: Bytes, data: Bytes)
    requires Lossless(lib) && w.crypto == r.crypto && |nonce| == NONCE
    requires w.crypto.Some? ==> Inverts(w.crypto.value)
    ensures Retrieved(lib, r, Stored(lib, w, nonce, data))
         == Unpacked(lib, r.compressor, Packed(lib, w.compressor, data))
    ensures w.compressor.Some? && r.compressor.Some? ==>
      Retrieved(lib, r, Stored(lib, w, nonce, data)) == Some(data)
    ensures w.compressor.None? && r.compressor.None? ==>
      Retrieved(lib, r, Stored(lib, w, nonce, data)) == Some(data)
  {
    if w.crypto.Some? {
      DecryptsBack(w.crypto.value, nonce, Packed(lib, w.compressor, data));
    }
    if w.compressor.Some? && r.compressor.Some? {
      CompressedIsRecognised(lib, w.compressor.value, r.compressor.value, data);
    }
  }

  /** Data stored before compression was switched on comes through a compressing pipeline
      unchanged if it begins with neither magic number and has at least 4 bytes. With fewer,
      an LZ4 pipeline still passes it; a Zstd pipeline passes it exactly when the library
      does not take it for a frame of something else. */
  lemma UncompressedPassesThrough(lib: Libraries, w: Config, r: Config, nonce: Bytes, data: Bytes)
    requires Lossless(lib) && w.crypto == r.crypto && |nonce| == NONCE
    requires w.crypto.Some? ==> Inverts(w.crypto.value)
    requires w.compressor.None? && r.compressor.Some? && DetectFormat(data).None?
    ensures Retrieved(lib, r, Stored(lib, w, nonce, data)) == Some(data) <==>
      r.compressor.value.Lz4? || |data| >= 4 || lib.zstdDecode(data).None? || lib.zstdDecode(data) == Some(data)
  {
    PipelineRoundTrip(lib, w, r, nonce, data);
  }

  /** Reading from an encrypted pipeline. The stored bytes must begin with 0 and 12, go on with
      a nonce of 12 bytes, and the rest must be a ciphertext that the cipher accepts under
      it; then its text is decompressed. Anything else is an error. */
  lemma EncryptedRetrieval(lib: Libraries, p: Config, data: Bytes)
    requires p.crypto.Some?
    ensures var sound := |data| >= 14 && data[..2] == [0, 12];
      Retrieved(lib, p, data)
      == if !sound || p.crypto.value.open(data[2..14], data[14..]).None? then None
         else Retrieved(lib, p.(crypto := None), p.crypto.value.open(data[2..14], data[14..]).value)
  {
    if |data| >= 2 {
      LengthIs12(data[0], data[1]);
      assert data[..2] == [data[0], data[1]];
      if data[..2] == [0, 12] && |data| >= 14 {
        DecodesAt(data, 12);
      }
    }
  }

  lemma LengthIs12(hi: Byte, lo: Byte)
    ensures FromBigEndian(hi, lo) == 12 <==> hi == 0 && lo == 12
  {
    if FromBigEndian(hi, lo) == 12 {
      ByteValue(hi, 0);
      ByteValue(lo, 12);
    }
  }

  /** Reading through decompression goes by the magic number the bytes begin with, whichever
      compressor is configured: what its library rejects is an error. Bytes with neither
      are passed on, unless there are fewer than four and zstd takes them for a frame. */
  lemma UnpackedByMagic(lib: Libraries, p: Config, data: Bytes)
    requires p.crypto.None?
    ensures p.compressor.None? ==> Retrieved(lib, p, data) == Some(data)
    ensures p.compressor.Some? ==>
      Retrieved(lib, p, data)
        == (if [0x28, 0xb5, 0x2f, 0xfd] <= data then lib.zstdDecode(data)
            else if [0x04, 0x22, 0x4d, 0x18] <= data then lib.lz4Unpack(data[4..])
            else if p.compressor.value.Zstd? && |data| < 4 && lib.zstdDecode(data).Some? then lib.zstdDecode(data)
            else Some(data))
    ensures DecompressStored(lib, data)
      == if [0x28, 0xb5, 0x2f, 0xfd] <= data then lib.zstdDecode(data)
         else if [0x04, 0x22, 0x4d, 0x18] <= data then lib.lz4Unpack(data[4..])
         else Some(data)
  {
    MagicsDiffer();
    Begins(ZSTD_MAGIC, data);
    Begins(LZ4_MAGIC, data);
  }

  /** What a pipeline stores, byte for byte. */
  lemma StoredLayout(lib: Libraries, p: Config, nonce: Bytes, data: Bytes)
    requires |nonce| == NONCE
    ensures var packed := Stored(lib, p.(crypto := None), nonce, data);
      && (p.crypto.Some? ==> Stored(lib, p, nonce, data) == [0, 12] + nonce + p.crypto.value.seal(nonce, packed))
      && (p.compressor.None? ==> packed == data)
      && (p.compressor.Some? && p.compressor.value.Lz4? ==> packed == [0x04, 0x22, 0x4d, 0x18] + lib.lz4Pack(data))
      && (p.compressor.Some? && p.compressor.value.Zstd? ==> packed == lib.zstdEncode(p.compressor.value.level, data))
  {
    if p.crypto.Some? {
      var packed := Stored(lib, p.(crypto := None), nonce, data);
      EnvelopeLayout(EncryptedData(p.crypto.value.seal(nonce, packed), nonce));
    }
  }
}

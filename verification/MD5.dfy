/** The streaming MD5 of a message that arrives in pieces. Padding and length are
    those of sections 3.1 to 3.4 of RFC 1321; the compression of one block into the
    hash, whose 64 steps are unrolled in the source, is a parameter. */
module MD5 {
  import opened Bytes

  const BLOCK_SIZE: nat := 64
  const UINT64: nat := 0x1_0000_0000_0000_0000

  type word = w: int | 0 <= w < 0x1_0000_0000

  datatype Hash = Hash(a: word, b: word, c: word, d: word)

  /** Takes a hash and a block of 64 bytes to the next hash. */
  type Compression = (Hash, seq<byte>) -> Hash

  const INITIAL: Hash := Hash(0x6745_2301, 0xefcd_ab89, 0x98ba_dcfe, 0x1032_5476)

  // ------------------------------------------------------------- the digest of a whole message

  /** The hash after the first `k` blocks of `s`. */
  function Blocks(compress: Compression, s: seq<byte>, k: nat): Hash
    requires 64 * k <= |s|
  {
    if k == 0 then INITIAL else compress(Blocks(compress, s, k - 1), s[64 * (k - 1)..64 * k])
  }

  function Zeros(n: nat): seq<byte> {
    seq(n, i => 0)
  }

  function LittleEndian(x: nat, n: nat): (r: seq<byte>)
    ensures |r| == n
  {
    if n == 0 then [] else [(x % 0x100) as byte] + LittleEndian(x / 0x100, n - 1)
  }

  /** How many zero bytes follow the one bit: the fewest that leave room for just the
      length in the last block. */
  function PaddingZeros(n: nat): (z: nat)
    ensures z < 64 && (n + 1 + z + 8) % 64 == 0
  {
    (119 - n % 64) % 64
  }

  /** A one bit, zero bits, and the length in bits, modulo 2^64. */
  function Padding(n: nat): (p: seq<byte>)
    ensures (n + |p|) % 64 == 0
  {
    [0x80] + Zeros(PaddingZeros(n)) + LittleEndian(8 * n % UINT64, 8)
  }

  function Output(h: Hash): (r: seq<byte>)
    ensures |r| == 16
  {
    LittleEndian(h.a, 4) + LittleEndian(h.b, 4) + LittleEndian(h.c, 4) + LittleEndian(h.d, 4)
  }

  function Final(compress: Compression, message: seq<byte>): Hash {
    var padded := message + Padding(|message|);
    Blocks(compress, padded, |padded| / 64)
  }

  function Digest(compress: Compression, message: seq<byte>): seq<byte> {
    Output(Final(compress, message))
  }

  // ------------------------------------------------------------- lemmas

  /** Only the first blocks count. */
  lemma {:induction false} SameBlocks(compress: Compression, s: seq<byte>, t: seq<byte>, k: nat)
    requires 64 * k <= |s| && 64 * k <= |t| && s[..64 * k] == t[..64 * k]
    ensures Blocks(compress, s, k) == Blocks(compress, t, k)
  {
    if k > 0 {
      assert s[..64 * (k - 1)] == s[..64 * k][..64 * (k - 1)];
      SameBlocks(compress, s, t, k - 1);
      assert s[64 * (k - 1)..64 * k] == s[..64 * k][64 * (k - 1)..];
    }
  }

  lemma {:induction false} Modulo(x: nat, k: nat)
    ensures (x + k * UINT64) % UINT64 == x % UINT64
  {
    if k > 0 {
      Modulo(x, k - 1);
      assert x + k * UINT64 == x + (k - 1) * UINT64 + UINT64;
    }
  }

  /** Counting in 64 bits. */
  lemma CountWraps(a: nat, b: nat)
    ensures (a % UINT64 + b) % UINT64 == (a + b) % UINT64
    ensures 8 * (a % UINT64) % UINT64 == 8 * a % UINT64
  {
    var q := a / UINT64;
    assert a == q * UINT64 + a % UINT64;
    Modulo(a % UINT64 + b, q);
    Modulo(8 * (a % UINT64), 8 * q);
  }

  lemma LengthInBits(processed: nat, rest: nat)
    ensures 8 * (processed % UINT64 + rest) % UINT64 == 8 * (processed + rest) % UINT64
  {
    CountWraps(processed, rest);
    CountWraps(processed % UINT64 + rest, 0);
    CountWraps(processed + rest, 0);
  }

  lemma PaddingOfRest(k: nat, rest: nat, z: nat, length: seq<byte>)
    requires rest < 64 && z == PaddingZeros(rest) && length == LittleEndian(8 * (64 * k + rest) % UINT64, 8)
    ensures Padding(64 * k + rest) == [0x80] + Zeros(z) + length
  {
    SameZeros(k, rest);
  }

  lemma SameZeros(k: nat, rest: nat)
    requires rest < 64
    ensures PaddingZeros(64 * k + rest) == PaddingZeros(rest)
  {
    assert (64 * k + rest) % 64 == rest;
  }

  /** The padded rest is one block. */
  lemma OneLastBlock(message: seq<byte>, k: nat, rest: seq<byte>, block: seq<byte>, pad: seq<byte>, length: seq<byte>)
    requires 64 * k <= |message| && rest == message[64 * k..] && |rest| < 56
    requires block == rest + [0x80] + Zeros(55 - |rest|) + length && pad == [0x80] + Zeros(55 - |rest|) + length
    ensures message + pad == message[..64 * k] + block
  {
    assert message == message[..64 * k] + rest;
  }

  /** The padded rest is two blocks. */
  lemma TwoLastBlocks(message: seq<byte>, k: nat, rest: seq<byte>, block: seq<byte>, extra: seq<byte>, pad: seq<byte>,
                      length: seq<byte>)
    requires 64 * k <= |message| && rest == message[64 * k..] && 56 <= |rest| < 64
    requires block == rest + [0x80] + Zeros(63 - |rest|) && extra == Zeros(56) + length &&
             pad == [0x80] + Zeros(119 - |rest|) + length
    ensures message + pad == message[..64 * k] + block + extra
  {
    assert message == message[..64 * k] + rest;
    assert Zeros(119 - |rest|) == Zeros(63 - |rest|) + Zeros(56);
  }

  /** `block` is the last block of the padded message. */
  lemma FinalOne(compress: Compression, message: seq<byte>, k: nat, block: seq<byte>)
    requires 64 * k <= |message| && |block| == 64 && message + Padding(|message|) == message[..64 * k] + block
    ensures Final(compress, message) == compress(Blocks(compress, message, k), block)
  {
    var padded := message + Padding(|message|);
    SameBlocks(compress, message, padded, k);
    assert padded[64 * k..64 * (k + 1)] == block;
  }

  /** The last blocks of the padded message are `block` and `extra`. */
  lemma FinalTwo(compress: Compression, message: seq<byte>, k: nat, block: seq<byte>, extra: seq<byte>)
    requires 64 * k <= |message| && |block| == |extra| == 64 &&
             message + Padding(|message|) == message[..64 * k] + block + extra
    ensures Final(compress, message) == compress(compress(Blocks(compress, message, k), block), extra)
  {
    var padded := message + Padding(|message|);
    SameBlocks(compress, message, padded, k);
    assert padded[64 * k..64 * (k + 1)] == block;
    assert padded[64 * (k + 1)..64 * (k + 2)] == extra;
    assert Blocks(compress, padded, k + 1) == compress(Blocks(compress, padded, k), block);
  }

  // ------------------------------------------------------------- the object

  /** The block that comes next in the message, and what is left behind it. */
  lemma NextBlock(message: seq<byte>, k: nat, block: seq<byte>, rest: seq<byte>)
    requires |block| == 64 && 64 * k <= |message| && message[64 * k..] == block + rest
    ensures 64 * (k + 1) <= |message| && message[64 * k..64 * (k + 1)] == block && message[64 * (k + 1)..] == rest
  {
    assert message[64 * k..64 * (k + 1)] == message[64 * k..][..64];
    assert message[64 * (k + 1)..] == message[64 * k..][64..];
  }

  class MD5 {
    const compress: Compression
    var numBytes: nat          // processed bytes, in 64 bits
    var bufferSize: nat
    const buffer: array<byte>
    var hash: Hash
    ghost var message: seq<byte>   // all bytes added since the last reset
    ghost var blocks: nat          // how many blocks of it are processed

    /** The buffer holds what does not fill a block yet, and is never full between calls. */
    ghost predicate Valid()
      reads this, buffer
    {
      Holds(message) && bufferSize < BLOCK_SIZE
    }

    /** All of `all` is processed, but for what is in the buffer. */
    ghost predicate Holds(all: seq<byte>)
      reads this, buffer
    {
      && buffer.Length == BLOCK_SIZE && bufferSize <= BLOCK_SIZE && At(all) && |all| == 64 * blocks + bufferSize
      && buffer[..bufferSize] == all[64 * blocks..]
    }

    /** The first blocks of `all` are processed. */
    ghost predicate At(all: seq<byte>)
      reads this
    {
      64 * blocks <= |all| && numBytes == 64 * blocks % UINT64 && hash == Blocks(compress, all, blocks)
    }

    constructor (compression: Compression)
      ensures Valid() && message == [] && compress == compression && fresh(buffer)
    {
      compress := compression;
      numBytes, bufferSize, hash, message, blocks := 0, 0, INITIAL, [], 0;
      buffer := new byte[BLOCK_SIZE](i => 0);
    }

    method Reset()
      requires buffer.Length == BLOCK_SIZE
      modifies this
      ensures Valid() && message == []
    {
      numBytes, bufferSize, hash, message, blocks := 0, 0, INITIAL, [], 0;
    }

    method ProcessBlock(block: seq<byte>)
      requires |block| == BLOCK_SIZE
      modifies this`hash
      ensures hash == compress(old(hash), block)
    {
      hash := compress(hash, block);
    }

    /** The next block of `all` is processed and counted. */
    method Advance(block: seq<byte>, ghost all: seq<byte>)
      requires At(all) && 64 * (blocks + 1) <= |all| && block == all[64 * blocks..64 * (blocks + 1)]
      modifies this`hash, this`numBytes, this`blocks
      ensures At(all) && blocks == old(blocks) + 1
    {
      CountWraps(64 * blocks, BLOCK_SIZE);
      ProcessBlock(block);
      numBytes := (numBytes + BLOCK_SIZE) % UINT64;
      blocks := blocks + 1;
    }

    /** Into the buffer, as far as `data` and the block go. */
    method FillBuffer(data: seq<byte>) returns (current: nat)
      requires buffer.Length == BLOCK_SIZE && bufferSize <= BLOCK_SIZE
      modifies this`bufferSize, buffer
      ensures current <= |data| && bufferSize == old(bufferSize) + current <= BLOCK_SIZE
      ensures buffer[..bufferSize] == old(buffer[..bufferSize]) + data[..current]
      ensures current == |data| || bufferSize == BLOCK_SIZE
    {
      current := 0;
      ghost var before := buffer[..bufferSize];
      while current < |data| && bufferSize < BLOCK_SIZE
        invariant current <= |data| && bufferSize == old(bufferSize) + current <= BLOCK_SIZE
        invariant buffer[..bufferSize] == before + data[..current]
      {
        buffer[bufferSize] := data[current];
        bufferSize := bufferSize + 1;
        current := current + 1;
        assert data[..current] == data[..current - 1] + [data[current - 1]];
      }
    }

    method Add(data: seq<byte>)
      requires Valid()
      modifies this, buffer
      ensures Valid() && message == old(message) + data
    {
      SameBlocks(compress, message, message + data, blocks);
      assert buffer[..bufferSize] == (message + data)[64 * blocks..|message|];
      message := message + data;
      var current := TopUp(data);
      if current < |data| {
        AddBlocks(data[current..]);
      }
    }

    /** Fill a block that was begun, and process it when it is full. */
    method TopUp(data: seq<byte>) returns (current: nat)
      requires buffer.Length == BLOCK_SIZE && bufferSize < BLOCK_SIZE && At(message)
      requires |message| == 64 * blocks + bufferSize + |data| && message[64 * blocks..] == buffer[..bufferSize] + data
      modifies this`hash, this`numBytes, this`bufferSize, this`blocks, buffer
      ensures current <= |data|
      ensures current == |data| ==> Valid()
      ensures current < |data| ==>
                && bufferSize == 0 && At(message)
                && |message| >= 64 * blocks && message[64 * blocks..] == data[current..]
    {
      current := 0;
      ghost var rest := message[64 * blocks..];
      if bufferSize > 0 {
        current := FillBuffer(data);
        assert rest == buffer[..bufferSize] + data[current..];
      }
      if bufferSize == BLOCK_SIZE {
        assert buffer[..bufferSize] == buffer[..];
        NextBlock(message, blocks, buffer[..], data[current..]);
        Advance(buffer[..], message);
        bufferSize := 0;
      }
    }

    /** Full blocks straight from the data; the rest goes to the buffer. */
    method AddBlocks(data: seq<byte>)
      requires buffer.Length == BLOCK_SIZE && bufferSize == 0 && At(message) && message[64 * blocks..] == data
      modifies this`hash, this`numBytes, this`bufferSize, this`blocks, buffer
      ensures Valid()
    {
      var current := 0;
      while |data| - current >= BLOCK_SIZE
        invariant current <= |data| && bufferSize == 0 && At(message) && message[64 * blocks..] == data[current..]
      {
        var block := data[current..current + BLOCK_SIZE];
        assert data[current..] == block + data[current + BLOCK_SIZE..];
        NextBlock(message, blocks, block, data[current + BLOCK_SIZE..]);
        Advance(block, message);
        current := current + BLOCK_SIZE;
      }
      var _ := FillBuffer(data[current..]);
    }

    // ----------------------------------------------------------- the digest

    /** The length of the padded rest in bytes, without the length field. */
    method PaddedLength() returns (bytes: nat)
      requires bufferSize < BLOCK_SIZE
      ensures bytes == bufferSize + 1 + PaddingZeros(bufferSize) && bytes == if bufferSize < 56 then 56 else 120
    {
      var bits := bufferSize * 8;
      bits := bits + 1;
      var lower := bits % 512;
      assert lower == bits == bufferSize * 8 + 1;
      if lower <= 448 {
        bits := bits + 448 - lower;
      } else {
        bits := bits + 512 + 448 - lower;
      }
      bytes := bits / 8;
    }

    /** A one bit behind the rest in the buffer, and zeros to its end. */
    method PadBuffer()
      requires buffer.Length == BLOCK_SIZE && bufferSize < BLOCK_SIZE
      modifies buffer
      ensures buffer[..] == old(buffer[..bufferSize]) + [0x80] + Zeros(63 - bufferSize)
    {
      ghost var rest := buffer[..bufferSize];
      buffer[bufferSize] := 0x80;
      for i := bufferSize + 1 to BLOCK_SIZE
        invariant buffer[..i] == rest + [0x80] + Zeros(i - bufferSize - 1)
      {
        buffer[i] := 0;
      }
      assert buffer[..] == buffer[..BLOCK_SIZE];
    }

    /** The last blocks: the buffer, padded, and a second one if the padding flows over. */
    method ProcessBuffer()
      requires Valid()
      modifies this`hash, buffer
      ensures buffer[..bufferSize] == old(buffer[..bufferSize])
      ensures hash == Final(compress, message)
    {
      ghost var rest := buffer[..bufferSize];
      var paddedLength := PaddedLength();
      PadBuffer();
      var msgBits := 8 * (numBytes + bufferSize) % UINT64;
      LengthInBits(64 * blocks, bufferSize);
      ghost var length := LittleEndian(msgBits, 8);
      PaddingOfRest(blocks, bufferSize, paddedLength - bufferSize - 1, length);
      if paddedLength < BLOCK_SIZE {
        ProcessOneBlock(msgBits, rest, length);
      } else {
        ProcessTwoBlocks(msgBits, rest, length);
      }
      assert buffer[..bufferSize] == rest;
    }

    method ProcessOneBlock(msgBits: nat, ghost rest: seq<byte>, ghost length: seq<byte>)
      requires buffer.Length == BLOCK_SIZE && |rest| < 56 && At(message) && rest == message[64 * blocks..]
      requires msgBits < UINT64 && length == LittleEndian(msgBits, 8)
      requires buffer[..] == rest + [0x80] + Zeros(63 - |rest|) &&
               Padding(|message|) == [0x80] + Zeros(55 - |rest|) + length
      modifies this`hash, buffer
      ensures buffer[..|rest|] == rest && hash == Final(compress, message)
    {
      assert buffer[..56] == rest + [0x80] + Zeros(55 - |rest|);
      WriteLength(buffer, 56, msgBits);
      OneLastBlock(message, blocks, rest, buffer[..], Padding(|message|), length);
      FinalOne(compress, message, blocks, buffer[..]);
      ProcessBlock(buffer[..]);
    }

    method ProcessTwoBlocks(msgBits: nat, ghost rest: seq<byte>, ghost length: seq<byte>)
      requires buffer.Length == BLOCK_SIZE && 56 <= |rest| < 64 && At(message) && rest == message[64 * blocks..]
      requires msgBits < UINT64 && length == LittleEndian(msgBits, 8)
      requires buffer[..] == rest + [0x80] + Zeros(63 - |rest|) &&
               Padding(|message|) == [0x80] + Zeros(119 - |rest|) + length
      modifies this`hash
      ensures hash == Final(compress, message)
    {
      var extra := new byte[BLOCK_SIZE](i => 0);
      assert extra[..56] == Zeros(56);
      WriteLength(extra, 56, msgBits);
      TwoLastBlocks(message, blocks, rest, buffer[..], extra[..], Padding(|message|), length);
      FinalTwo(compress, message, blocks, buffer[..], extra[..]);
      ProcessBlock(buffer[..]);
      ProcessBlock(extra[..]);
    }

    /** The digest so far; more can be added afterwards. */
    method GetHash() returns (result: seq<byte>)
      requires Valid()
      modifies this`hash, buffer
      ensures Valid() && result == Digest(compress, message)
    {
      var oldHash := hash;
      ProcessBuffer();
      WordIsLittleEndian(hash.a);
      WordIsLittleEndian(hash.b);
      WordIsLittleEndian(hash.c);
      WordIsLittleEndian(hash.d);
      result := WordBytes(hash.a) + WordBytes(hash.b) + WordBytes(hash.c) + WordBytes(hash.d);
      hash := oldHash;
    }

    /** The digest so far in hexadecimal digits. */
    method GetHexHash() returns (result: string)
      requires Valid()
      modifies this`hash, buffer
      ensures Valid() && result == Hex(Digest(compress, message))
    {
      var raw := GetHash();
      result := [];
      for i := 0 to |raw|
        invariant result == Hex(raw[..i])
      {
        result := result + [HexDigit(raw[i] / 16)] + [HexDigit(raw[i] % 16)];
        assert raw[..i + 1][..i] == raw[..i];
      }
      assert raw[..|raw|] == raw;
    }

    /** The digest of one message. */
    method Apply(data: seq<byte>) returns (result: string)
      requires buffer.Length == BLOCK_SIZE
      modifies this, buffer
      ensures Valid() && message == data && result == Hex(Digest(compress, data))
    {
      Reset();
      Add(data);
      assert message == data;
      result := GetHexHash();
    }
  }

  /** A length in bits, low byte first, into the end of a block. */
  method WriteLength(block: array<byte>, at: nat, bits: nat)
    requires at + 8 == block.Length && bits < UINT64
    modifies block
    ensures block[..] == old(block[..at]) + LittleEndian(bits, 8)
  {
    ghost var before := block[..at];
    var rest := bits;
    ghost var bytes := LittleEndian(bits, 8);
    for k := 0 to 8
      invariant forall j :: 0 <= j < at ==> block[j] == before[j]
      invariant forall j :: at <= j < at + k ==> block[j] == bytes[j - at]
      invariant LittleEndian(rest, 8 - k) == bytes[k..]
    {
      NextByte(rest, 8 - k, bytes[k..]);
      block[at + k] := (rest % 0x100) as byte;
      rest := rest / 0x100;
    }
    assert block[..] == before + bytes;
  }

  lemma NextByte(x: nat, n: nat, bytes: seq<byte>)
    requires n > 0 && LittleEndian(x, n) == bytes
    ensures bytes[0] == (x % 0x100) as byte && LittleEndian(x / 0x100, n - 1) == bytes[1..]
  {
  }

  /** The bytes of a word, low byte first. */
  function WordBytes(w: word): seq<byte> {
    [(w % 0x100) as byte, (w / 0x100 % 0x100) as byte, (w / 0x1_0000 % 0x100) as byte, (w / 0x100_0000 % 0x100) as byte]
  }

  lemma WordIsLittleEndian(w: word)
    ensures WordBytes(w) == LittleEndian(w, 4)
  {
    var x: nat := w;
    assert LittleEndian(x / 0x100_0000, 1) == [(x / 0x100_0000 % 0x100) as byte];
    assert x / 0x1_0000 / 0x100 == x / 0x100_0000 && x / 0x100 / 0x100 == x / 0x1_0000;
    assert LittleEndian(x / 0x1_0000, 2) == [(x / 0x1_0000 % 0x100) as byte] + LittleEndian(x / 0x100_0000, 1);
    assert LittleEndian(x / 0x100, 3) == [(x / 0x100 % 0x100) as byte] + LittleEndian(x / 0x1_0000, 2);
  }

  function HexDigit(d: nat): char
    requires d < 16
  {
    "0123456789abcdef"[d]
  }

  function Hex(s: seq<byte>): string {
    if s == [] then [] else Hex(s[..|s| - 1]) + [HexDigit(s[|s| - 1] / 16)] + [HexDigit(s[|s| - 1] % 16)]
  }

  lemma OutputIsBytes(h: Hash)
    ensures Output(h) == WordBytes(h.a) + WordBytes(h.b) + WordBytes(h.c) + WordBytes(h.d)
  {
    WordIsLittleEndian(h.a);
    WordIsLittleEndian(h.b);
    WordIsLittleEndian(h.c);
    WordIsLittleEndian(h.d);
  }

  lemma FourBytes(w: word, a: byte, b: byte, c: byte, d: byte)
    requires w == a + 0x100 * b + 0x1_0000 * c + 0x100_0000 * d
    ensures WordBytes(w) == [a, b, c, d]
  {
    var x, y := b + 0x100 * c + 0x1_0000 * d, c + 0x100 * d;
    LowByte(w, a, x);
    LowByte(x, b, y);
    LowByte(y, c, d);
    assert w / 0x1_0000 == x / 0x100 && w / 0x100_0000 == y / 0x100;
  }

  lemma LowByte(x: nat, low: byte, high: nat)
    requires x == low + 0x100 * high
    ensures x % 0x100 == low && x / 0x100 == high
  {
  }

  /** Section 3.3 of RFC 1321: the initial words, low-order bytes first. */
  lemma InitialBytes(h: Hash)
    requires h == INITIAL
    ensures Output(h) == [0x01, 0x23, 0x45, 0x67] + [0x89, 0xab, 0xcd, 0xef] + [0xfe, 0xdc, 0xba, 0x98] +
                         [0x76, 0x54, 0x32, 0x10]
  {
    OutputIsBytes(h);
    FourBytes(h.a, 0x01, 0x23, 0x45, 0x67);
    FourBytes(h.b, 0x89, 0xab, 0xcd, 0xef);
    FourBytes(h.c, 0xfe, 0xdc, 0xba, 0x98);
    FourBytes(h.d, 0x76, 0x54, 0x32, 0x10);
  }

  function DigitValue(c: char): nat {
    if '0' <= c <= '9' then (c - '0') as nat else if 'a' <= c <= 'f' then 10 + (c - 'a') as nat else 16
  }

  lemma DigitIsRead(d: nat)
    requires d < 16
    ensures DigitValue(HexDigit(d)) == d
  {
  }

  lemma HexLength(s: seq<byte>)
    ensures |Hex(s)| == 2 * |s|
  {
  }

  /** Two digits for every byte, the high one first. */
  lemma {:induction false} HexMeans(s: seq<byte>, k: nat)
    requires k < |s|
    ensures |Hex(s)| == 2 * |s| && DigitValue(Hex(s)[2 * k]) < 16 && DigitValue(Hex(s)[2 * k + 1]) < 16
    ensures 16 * DigitValue(Hex(s)[2 * k]) + DigitValue(Hex(s)[2 * k + 1]) == s[k]
  {
    var n := |s| - 1;
    HexLength(s[..n]);
    if k < n {
      HexMeans(s[..n], k);
    } else {
      DigitIsRead(s[n] / 16);
      DigitIsRead(s[n] % 16);
    }
  }

  function Joined(pieces: seq<seq<byte>>): seq<byte> {
    if pieces == [] then [] else Joined(pieces[..|pieces| - 1]) + pieces[|pieces| - 1]
  }

  /** However a message is cut into pieces, and although the digest is asked for after
      every piece, the last digest is that of the whole message. */
  method DigestOfPieces(md5: MD5, pieces: seq<seq<byte>>) returns (result: seq<byte>)
    requires md5.buffer.Length == BLOCK_SIZE
    modifies md5, md5.buffer
    ensures md5.Valid() && result == Digest(md5.compress, Joined(pieces))
  {
    md5.Reset();
    result := md5.GetHash();
    for i := 0 to |pieces|
      invariant md5.Valid() && md5.message == Joined(pieces[..i]) && result == Digest(md5.compress, md5.message)
    {
      md5.Add(pieces[i]);
      assert pieces[..i + 1][..i] == pieces[..i];
      result := md5.GetHash();
    }
    assert pieces[..|pieces|] == pieces;
  }
}

/** The stream overloads of `Encrypt` and `Decrypt` (Crypt/Program.cs:34-75):
    a loop that moves bytes from a readable stream to a writable one through
    one reused 4096-byte buffer. AES itself is not modelled: `Cipher` stands
    for the library's CBC transforms with PKCS#7 padding. */
module Streams {
  import opened Wrappers

  /** Size of the copy buffer (Crypt/Program.cs:12). */
  const BufferSize: nat := 4096

  /** A readable stream over a fixed byte sequence with a read cursor. A
      read hands out between 1 and `count` bytes while bytes remain (how
      many is the stream's choice) and 0 at the end. A stream whose
      `failsAtEnd` is set raises an error instead of reporting its end. */
  class ByteSource {
    const data: seq<Byte>
    const failsAtEnd: bool
    var position: nat

    ghost predicate Valid()
      reads this
    {
      position <= |data|
    }

    /** The bytes not yet read. */
    function Remaining(): seq<Byte>
      reads this
      requires Valid()
    {
      data[position..]
    }

    constructor (data: seq<Byte>, failsAtEnd: bool)
      ensures Valid() && this.data == data && this.failsAtEnd == failsAtEnd && position == 0
    {
      this.data := data;
      this.failsAtEnd := failsAtEnd;
      position := 0;
    }

    /** `Stream.Read(buffer, offset, count)`: `ok` is false when the read
        raised an error. */
    method Read(buffer: array<Byte>, offset: nat, count: nat) returns (read: nat, ok: bool)
      requires Valid() && count >= 1 && offset + count <= buffer.Length
      modifies this, buffer
      ensures Valid()
      ensures read <= count
      ensures read == 0 <==> old(position) == |data|
      ensures ok <==> !(read == 0 && failsAtEnd)
      ensures position == old(position) + read
      ensures buffer[offset..offset + read] == data[old(position)..position]
    {
      if position == |data| {
        return 0, !failsAtEnd;
      }
      var n :| 1 <= n <= count && n <= |data| - position;
      forall i | 0 <= i < n {
        buffer[offset + i] := data[position + i];
      }
      position := position + n;
      return n, true;
    }

    /** Everything that is left, as the decrypting stream pulls it in. */
    method ReadToEnd() returns (bytes: seq<Byte>)
      requires Valid()
      modifies this
      ensures Valid() && position == |data|
      ensures bytes == old(Remaining())
    {
      bytes := data[position..];
      position := |data|;
    }
  }

  /** A writable, append-only stream; `writes` records the chunk passed by
      each write, in order. Once closed it takes no more writes. */
  class ByteSink {
    var content: seq<Byte>
    var closed: bool
    ghost var writes: seq<seq<Byte>>

    constructor ()
      ensures content == [] && writes == [] && !closed
    {
      content := [];
      closed := false;
      writes := [];
    }

    /** `Stream.Write(buffer, offset, count)`. */
    method Write(buffer: array<Byte>, offset: nat, count: nat)
      requires !closed && offset + count <= buffer.Length
      modifies this
      ensures !closed
      ensures writes == old(writes) + [buffer[offset..offset + count]]
      ensures content == old(content) + buffer[offset..offset + count]
    {
      WriteBytes(buffer[offset..offset + count]);
    }

    /** One write of a whole byte sequence. */
    method WriteBytes(bytes: seq<Byte>)
      requires !closed
      modifies this
      ensures !closed
      ensures writes == old(writes) + [bytes]
      ensures content == old(content) + bytes
    {
      content := content + bytes;
      writes := writes + [bytes];
    }

    /** `Stream.Dispose()`: what was written stays, nothing more can be. */
    method Close()
      modifies this
      ensures closed && content == old(content) && writes == old(writes)
    {
      closed := true;
    }
  }

  /** `writes` hands over exactly `bytes`, in order, each write carrying
      between 1 and `BufferSize` bytes. */
  ghost predicate Chunked(writes: seq<seq<Byte>>, bytes: seq<Byte>)
  {
    Concat(writes) == bytes && forall k :: 0 <= k < |writes| ==> 1 <= |writes[k]| <= BufferSize
  }

  /** One more write of 1 to `BufferSize` bytes, carrying the bytes that
      follow the ones already copied, keeps the copy exact and chunked. */
  lemma ChunkedStep(chunks: seq<seq<Byte>>, data: seq<Byte>, start: nat, mid: nat, end: nat)
    requires start <= mid <= end <= |data| && 1 <= end - mid <= BufferSize
    requires Chunked(chunks, data[start..mid])
    ensures Chunked(chunks + [data[mid..end]], data[start..end])
    ensures data[start..end] == data[start..mid] + data[mid..end]
  {
    ConcatSnoc(chunks, data[mid..end]);
    assert data[start..end] == data[start..mid] + data[mid..end];
  }

  lemma AppendAssoc<T>(a: seq<T>, b: seq<T>, c: seq<T>)
    ensures a + b + c == a + (b + c)
  {
  }

  /** One turn of the copy loop: read up to a buffer's worth, and write
      what was read unless the read returned 0. */
  method CopyChunk(source: ByteSource, sink: ByteSink, buffer: array<Byte>) returns (read: nat, ok: bool)
    requires source.Valid() && buffer.Length == BufferSize && !sink.closed
    modifies source, sink, buffer
    ensures source.Valid() && source.position == old(source.position) + read
    ensures !sink.closed
    ensures read <= BufferSize
    ensures read == 0 <==> old(source.position) == |source.data|
    ensures ok <==> !(read == 0 && source.failsAtEnd)
    ensures read == 0 ==> sink.content == old(sink.content) && sink.writes == old(sink.writes)
    ensures read > 0 ==>
      && sink.content == old(sink.content) + source.data[old(source.position)..source.position]
      && sink.writes == old(sink.writes) + [source.data[old(source.position)..source.position]]
  {
    read, ok := source.Read(buffer, 0, buffer.Length);
    if read > 0 {
      sink.Write(buffer, 0, read);
    }
  }

  /** The copy loop both stream overloads run: read up to 4096 bytes into
      the buffer, stop on a read of 0, otherwise write exactly what was
      read. The sink receives the source's remaining bytes unchanged and in
      order, in writes of 1 to 4096 bytes; `ok` is false when the source
      raised an error at its end, after everything before it was copied. */
  method Pump(source: ByteSource, sink: ByteSink) returns (ok: bool, ghost chunks: seq<seq<Byte>>)
    requires source.Valid() && !sink.closed
    modifies source, sink
    ensures source.Valid() && source.position == |source.data|
    ensures ok <==> !source.failsAtEnd
    ensures !sink.closed
    ensures sink.content == old(sink.content) + old(source.Remaining())
    ensures sink.writes == old(sink.writes) + chunks
    ensures Chunked(chunks, old(source.Remaining()))
  {
    var buffer := new Byte[BufferSize];
    ghost var start := source.position;
    chunks := [];
    while true
      invariant source.Valid() && start <= source.position && !sink.closed
      invariant sink.content == old(sink.content) + source.data[start..source.position]
      invariant sink.writes == old(sink.writes) + chunks
      invariant Chunked(chunks, source.data[start..source.position])
      decreases |source.data| - source.position
    {
      ghost var mid := source.position;
      var read, readOk := CopyChunk(source, sink, buffer);
      if !readOk || read <= 0 {
        // an error raised by the read ends the copy as well
        ok := readOk;
        assert source.data[start..source.position] == old(source.Remaining());
        break;
      }
      ghost var piece := source.data[mid..source.position];
      ChunkedStep(chunks, source.data, start, mid, source.position);
      AppendAssoc(old(sink.content), source.data[start..mid], piece);
      AppendAssoc(old(sink.writes), chunks, [piece]);
      chunks := chunks + [piece];
    }
  }

  /** The plaintext a decryption releases, and whether the final block's
      PKCS#7 padding was valid. */
  datatype Decryption = Decryption(released: seq<Byte>, paddingValid: bool)

  /** AES in CBC mode with PKCS#7 padding, as transforms of whole byte
      sequences under a key and an IV. */
  datatype Cipher = Cipher(
    encrypt: (seq<Byte>, seq<Byte>, seq<Byte>) -> seq<Byte>,
    decrypt: (seq<Byte>, seq<Byte>, seq<Byte>) -> Decryption)

  /** Key and IV sizes `RijndaelManaged` accepts with its 128-bit block. */
  predicate ValidKeyMaterial(key: seq<Byte>, iv: seq<Byte>)
  {
    (|key| == 16 || |key| == 24 || |key| == 32) && |iv| == 16
  }

  /** Encrypt a stream: pump the source into the encrypting stream
      `plain`, whose final block is flushed into `dest` when it is disposed
      (also when the source raised an error). Disposing closes `plain` but
      not `dest`. `dest` ends up with the ciphertext of everything read;
      `chunks` are the writes the loop made into `plain`. */
  method Encrypt(source: ByteSource, dest: ByteSink, cipher: Cipher, key: seq<Byte>, iv: seq<Byte>)
    returns (ok: bool, ghost chunks: seq<seq<Byte>>, ghost plain: ByteSink)
    requires ValidKeyMaterial(key, iv)
    requires source.Valid() && !dest.closed
    modifies source, dest
    ensures source.Valid() && source.position == |source.data|
    ensures ok <==> !source.failsAtEnd
    ensures fresh(plain) && plain.closed
    ensures plain.writes == chunks && plain.content == old(source.Remaining())
    ensures Chunked(chunks, old(source.Remaining()))
    ensures !dest.closed
    ensures dest.content == old(dest.content) + cipher.encrypt(key, iv, old(source.Remaining()))
  {
    var cryptoStream := new ByteSink();
    ok, chunks := Pump(source, cryptoStream);
    assert cryptoStream.writes == chunks;
    assert cryptoStream.content == old(source.Remaining());
    dest.WriteBytes(cipher.encrypt(key, iv, cryptoStream.content));
    cryptoStream.Close();
    plain := cryptoStream;
  }

  /** Decrypt a stream: pump the decrypting stream over `source` into
      `dest`. The decrypting stream releases the plaintext and raises an
      error at its end when the padding is invalid (or the ciphertext source
      itself fails), after the released plaintext was written; `chunks` are
      the loop's writes into `dest`. */
  method Decrypt(source: ByteSource, dest: ByteSink, cipher: Cipher, key: seq<Byte>, iv: seq<Byte>)
    returns (ok: bool, ghost chunks: seq<seq<Byte>>)
    requires ValidKeyMaterial(key, iv)
    requires source.Valid() && !dest.closed
    modifies source, dest
    ensures source.Valid() && source.position == |source.data|
    ensures !dest.closed
    ensures var d := cipher.decrypt(key, iv, old(source.Remaining()));
      && dest.content == old(dest.content) + d.released
      && dest.writes == old(dest.writes) + chunks
      && Chunked(chunks, d.released)
      && (ok <==> d.paddingValid && !source.failsAtEnd)
  {
    var ciphertext := source.ReadToEnd();
    var d := cipher.decrypt(key, iv, ciphertext);
    var cryptoStream := new ByteSource(d.released, !d.paddingValid || source.failsAtEnd);
    ok, chunks := Pump(cryptoStream, dest);
  }

  /** The cipher's own promise for one plaintext: decrypting its ciphertext
      gives it back with valid padding. */
  predicate RoundTrips(cipher: Cipher, key: seq<Byte>, iv: seq<Byte>, plaintext: seq<Byte>)
  {
    cipher.decrypt(key, iv, cipher.encrypt(key, iv, plaintext)) == Decryption(plaintext, true)
  }

  /** Encrypting a plaintext from one in-memory stream into another and
      decrypting that into a third gives the plaintext back, however the
      streams chunk their reads: the chunked copy loops add nothing to what
      the cipher promises. */
  method EncryptThenDecrypt(plaintext: seq<Byte>, cipher: Cipher, key: seq<Byte>, iv: seq<Byte>)
    returns (decrypted: seq<Byte>, ok: bool)
    requires ValidKeyMaterial(key, iv) && RoundTrips(cipher, key, iv, plaintext)
    ensures ok && decrypted == plaintext
  {
    var source := new ByteSource(plaintext, false);
    var encrypted := new ByteSink();
    ghost var chunks, plain;
    var encryptOk;
    encryptOk, chunks, plain := Encrypt(source, encrypted, cipher, key, iv);
    var ciphertext := new ByteSource(encrypted.content, false);
    var output := new ByteSink();
    ok, chunks := Decrypt(ciphertext, output, cipher, key, iv);
    decrypted := output.content;
  }
}

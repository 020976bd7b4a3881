/** `GenerateKeyAndInitializationVector` (Crypt/Program.cs:14-23): one
    PBKDF2 (RFC 2898, section 5.2) byte stream, read twice in a row; the
    first read is the key and the second the initialization vector.
    PBKDF2 itself is not modelled: `Kdf` stands for the library's derived
    byte stream of a password, a salt and an iteration count. */
module KeyDerivation {
  import opened Wrappers

  /** The derived byte stream of (password, salt, iterations): byte i of the
      PBKDF2 output for any output length greater than i. */
  type Kdf = (string, seq<Byte>, int) -> (nat -> Byte)

  /** The lengths the tool asks for (Crypt/Program.cs:178-179). */
  const KeyLengthInBits: int := 256
  const IvLengthInBits: int := 128

  /** Bytes `from .. from + count` of a derived stream. */
  function Slice(stream: nat -> Byte, from: nat, count: nat): seq<Byte>
  {
    seq(count, i requires 0 <= i < count => stream(from + i))
  }

  /** The key is the first `keyBits / 8` bytes of the stream and the IV the
      `ivBits / 8` bytes right after them: together they are one prefix of
      the stream, key first. */
  function KeyAndIv(stream: nat -> Byte, keyBits: int, ivBits: int): (r: (seq<Byte>, seq<Byte>))
    requires keyBits >= 8 && ivBits >= 8
    ensures |r.0| == keyBits / 8 && |r.1| == ivBits / 8
    ensures r.0 + r.1 == Slice(stream, 0, keyBits / 8 + ivBits / 8)
  {
    var key := Slice(stream, 0, keyBits / 8);
    var iv := Slice(stream, keyBits / 8, ivBits / 8);
    assert key + iv == Slice(stream, 0, keyBits / 8 + ivBits / 8);
    (key, iv)
  }

  /** With the tool's lengths the key is 32 bytes and the IV 16, bytes 0-31
      and 32-47 of the stream. */
  lemma DefaultKeyAndIv(stream: nat -> Byte)
    ensures var (key, iv) := KeyAndIv(stream, KeyLengthInBits, IvLengthInBits);
      |key| == 32 && |iv| == 16 &&
      (forall i :: 0 <= i < 32 ==> key[i] == stream(i)) &&
      (forall i :: 0 <= i < 16 ==> iv[i] == stream(32 + i))
  {
  }

  /** An `Rfc2898DeriveBytes` object: successive `GetBytes` calls hand out
      successive bytes of one derived stream. */
  class DeriveBytes {
    const stream: nat -> Byte
    var position: nat

    /** `new Rfc2898DeriveBytes(password, salt, iterations)`; the library
        refuses salts shorter than 8 bytes and iteration counts below 1. */
    constructor (kdf: Kdf, password: string, salt: seq<Byte>, iterations: int)
      requires |salt| >= 8 && iterations >= 1
      ensures stream == kdf(password, salt, iterations) && position == 0
    {
      stream := kdf(password, salt, iterations);
      position := 0;
    }

    /** The next `count` bytes of the stream (the library refuses a count
        below 1). */
    method GetBytes(count: int) returns (bytes: seq<Byte>)
      requires count >= 1
      modifies this
      ensures bytes == Slice(stream, old(position), count)
      ensures position == old(position) + count
    {
      bytes := Slice(stream, position, count);
      position := position + count;
    }
  }

  /** Two `GetBytes` calls on one fresh derive-bytes object give exactly
      the slicing `KeyAndIv` describes. */
  method GenerateKeyAndIv(kdf: Kdf, password: string, salt: seq<Byte>, iterations: int,
                          keyLengthInBits: int, ivLengthInBits: int)
    returns (key: seq<Byte>, iv: seq<Byte>)
    requires |salt| >= 8 && iterations >= 1
    requires keyLengthInBits >= 8 && ivLengthInBits >= 8
    ensures (key, iv) == KeyAndIv(kdf(password, salt, iterations), keyLengthInBits, ivLengthInBits)
  {
    var derive := new DeriveBytes(kdf, password, salt, iterations);
    key := derive.GetBytes(keyLengthInBits / 8);
    iv := derive.GetBytes(ivLengthInBits / 8);
  }
}

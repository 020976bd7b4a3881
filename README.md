# Crypt — a Dafny model of the command-line file encrypter

`crypt.exe` encrypts or decrypts a file with AES in CBC mode. The key and IV
come from PBKDF2 over a password, a salt and an iteration count, all three
read from environment variables. A third command, `enablesigning`, edits an
MSBuild project file so that the assembly is signed with a given key file.
This project models the hand-written logic of `Crypt/Program.cs`:

- **Config.dfy and Numbers.dfy.** The configuration check reads
  `CRYPT_PASSWORD`, `CRYPT_SALT` (eight comma-separated hex bytes) and
  `CRYPT_NUM_ITERATIONS` (a positive 32-bit integer).
  - `Numbers` holds the two library parsers the check relies on:
    `byte.TryParse` with `AllowHexSpecifier` and `int.TryParse` with
    `NumberStyles.Integer`. Each is paired with a formatter and a
    round-trip lemma.
  - `Text` holds `String.Split` with its inverse `Join`, and ASCII case
    folding.
- **KeyDerivation.dfy.** `GenerateKeyAndInitializationVector` reads two
  successive slices of one `Rfc2898DeriveBytes` stream, modelled as a class
  with a read cursor.
- **Streams.dfy.** The stream overloads of `Encrypt` and `Decrypt` run a
  copy loop through a reused 4096-byte buffer. Streams are classes over
  byte sequences. A read returns however many bytes the stream chooses, so
  the loop is proved for every chunking.
- **Signing.dfy.** `EnableSigning` inserts a new `PropertyGroup` after the
  last existing one, in the project node's child list.
- **Cli.dfy.** `Main` and `EncryptDecrypt` are modelled as functions from
  the arguments, the environment, the set of existing files and the loaded
  project documents to an outcome. The outcome is the exit code and the
  ordered trace of what the run does: derive a key, encrypt or decrypt a
  file, or save a project.

The mode passed to `EncryptDecrypt` (Crypt/Program.cs:90) is overwritten at
line 97 by parsing `args[0]` again, so the model's `EncryptDecrypt` takes
only the arguments. `Cli.Run` proves that this re-parse always agrees with
`Main`'s, so the `default` branch of `EncryptDecrypt`'s switch
(Crypt/Program.cs:194-197) is never reached. In the model, `Main`'s own
`default` branch (Crypt/Program.cs:290-293) is unreachable too, because
`Cli.ParseMode` yields only the three named modes. In the program it is
reached by numeric mode words; see `Cli.ParseMode` under "Left out".

## Model

| member | source | states |
|---|---|---|
| Text.Split | Crypt/Program.cs:131 | splitting on `,` gives one more field than there are commas, and no field contains a comma |
| Text.JoinSplit | Crypt/Program.cs:131 | joining the fields of a split with the separator gives the original text back |
| Text.SplitJoin | Crypt/Program.cs:131 | splitting the join of one or more comma-free fields gives exactly those fields |
| Text.SplitAfterField | Crypt/Program.cs:131 | a comma-free field followed by a comma splits off as the first field |
| Text.LowerAll | Crypt/Program.cs:275 | case folding keeps the length and lower-cases each character on its own |
| Text.LowerAllMatchesSame | Crypt/Program.cs:275 | a case-insensitive match is unaffected by lower-casing the input first |
| Numbers.ParseHexByte | Crypt/Program.cs:142 | a salt field parses only when it is one or more hex digits, with no prefix, sign or white space, and its value fits in a byte |
| Numbers.ParseFormatHexByte | Crypt/Program.cs:142-145 | every byte written as two upper-case hex digits (`00` to `FF`) parses back to itself |
| Numbers.ParseHexByteLeadingZero | Crypt/Program.cs:142 | leading zeros do not change whether or to what a field parses |
| Numbers.HexValueLeadingZero | Crypt/Program.cs:142 | a leading `0` digit does not change a hex string's value |
| Numbers.ParseInt32 | Crypt/Program.cs:164 | an accepted iteration text yields a value in the 32-bit signed range |
| Numbers.ParseSignedDigits | Crypt/Program.cs:164 | an optional sign followed by decimal digits is accepted only within the 32-bit signed range |
| Numbers.ParseFormatInt32 | Crypt/Program.cs:164 | every 32-bit integer written in decimal parses back to itself |
| Numbers.ParseInt32IgnoresPadding | Crypt/Program.cs:164 | white space (U+0009 to U+000D, U+0020) before or after the number is skipped |
| Numbers.DecimalValueDigits | Crypt/Program.cs:164 | the decimal digits of a natural number denote that number |
| Config.ParseSaltFields | Crypt/Program.cs:138-151 | an accepted salt has one byte per field; a rejection names a field that exists |
| Config.ParseSaltFieldsOk | Crypt/Program.cs:138-151 | the salt is accepted exactly when every field parses, and then byte i is the value of field i |
| Config.ParseSaltFieldsErr | Crypt/Program.cs:138-151 | a rejection names the first field that fails to parse, and every field before it parses |
| Config.ParseSalt | Crypt/Program.cs:138-151 | the loop that fills the 8-byte array stops at the first bad field and otherwise returns exactly the field values, in order |
| Config.ParseSettings | Crypt/Program.cs:111-176 | accepted settings have a non-empty password, exactly 8 salt bytes and an iteration count from 1 to 2147483647 |
| Config.PasswordCheckedFirst | Crypt/Program.cs:111-117 | a missing or empty password is rejected whatever the salt and iteration count are |
| Config.SaltCheckedBeforeIterations | Crypt/Program.cs:119-161 | a rejected salt makes the iteration count irrelevant |
| Config.SaltNeedsSevenCommas | Crypt/Program.cs:119-136 | a salt text without exactly 7 commas is rejected, and the error reports the field count it had |
| Config.SettingsAccepted | Crypt/Program.cs:111-176 | full characterisation, both directions: accepted exactly when the password is non-empty, the salt splits into 8 parseable hex fields, and the iteration text parses to a value of at least 1; the settings then hold those values |
| Config.SaltFieldsRoundTrip | Crypt/Program.cs:131-151 | a salt written as comma-separated two-digit hex fields splits back into those fields and parses back to the same bytes |
| Config.SaltRoundTrip | Crypt/Program.cs:111-176 | any valid settings, written out in the expected variable formats, are read back unchanged |
| KeyDerivation.KeyAndIv | Crypt/Program.cs:14-23 | the key has `keyLengthInBits/8` bytes and the IV `ivLengthInBits/8` bytes, and key followed by IV is exactly the stream's prefix of that combined length |
| KeyDerivation.DefaultKeyAndIv | Crypt/Program.cs:178-182 | with 256 and 128 bits, the key is stream bytes 0-31 and the IV stream bytes 32-47 |
| KeyDerivation.DeriveBytes.constructor | Crypt/Program.cs:18 | the derived stream is fixed by password, salt and iteration count, and reading starts at byte 0 |
| KeyDerivation.DeriveBytes.GetBytes | Crypt/Program.cs:20-21 | each call returns the next `count` bytes of the stream and advances past them |
| KeyDerivation.GenerateKeyAndIv | Crypt/Program.cs:14-23 | two successive reads from one derived stream give the key and IV that `KeyAndIv` describes, so the result depends only on password, salt, iterations and the two lengths |
| Streams.ByteSource.Read | Crypt/Program.cs:42 | a read returns 0 exactly at the end, otherwise 1 to `count` bytes, which are the next bytes of the stream, placed in the buffer from `offset` on |
| Streams.ByteSource.ReadToEnd | Crypt/Program.cs:63 | the decrypting stream consumes all remaining ciphertext |
| Streams.ByteSink.Write | Crypt/Program.cs:46 | a write to an open stream appends exactly `buffer[offset..offset+count]`, records it as one write and leaves the stream open |
| Streams.ByteSink.WriteBytes | Crypt/NotClosingCryptoStream.cs:18-19 | appends exactly the given bytes to the stream's content and records them as one write; the encrypting stream's final flush is such a write |
| Streams.ByteSink.Close | Crypt/NotClosingCryptoStream.cs:21 | disposing the encrypting stream closes it, keeping what was written; a closed stream takes no further write |
| Streams.CopyChunk | Crypt/Program.cs:42-46 | one loop turn: a read of 0 writes nothing, and any other read writes exactly the bytes read, as one write |
| Streams.Pump | Crypt/Program.cs:39-47 | the copy loop (also lines 65-73) terminates with the source exhausted; the destination receives exactly the source's remaining bytes in order; every write carries 1 to 4096 bytes; it fails exactly when the source fails at its end |
| Streams.Encrypt | Crypt/Program.cs:34-49 | returns the encrypting stream `plain` it created: the loop's writes into it, which are exactly `plain`'s recorded writes, carry the source's remaining bytes in order, 1 to 4096 bytes each; disposing it closes `plain`, and the destination gains the ciphertext of all of them and stays open (Crypt/NotClosingCryptoStream.cs:16-22), also when the source failed, which `ok` reports |
| Streams.Decrypt | Crypt/Program.cs:60-75 | the destination gains the plaintext the decryption releases, through writes of 1 to 4096 bytes that carry it in order; the operation fails exactly when the padding is invalid or the source fails |
| Streams.EncryptThenDecrypt | Crypt.Test/ProgramTest.cs:24-49 | wherever the cipher round-trips a plaintext, encrypting and then decrypting through the chunked loops gives the plaintext back, without error |
| Signing.LastPropertyGroup | Crypt/Program.cs:233-234 | the result is a `PropertyGroup` child with none after it; there is no result exactly when the project has no `PropertyGroup` child |
| Signing.LastPropertyGroupIs | Crypt/Program.cs:233-234 | a `PropertyGroup` with none after it is the one found |
| Signing.ProjectIndex | Crypt/Program.cs:219-231 | the project is the first top-level node exactly when that node is named `Project`, otherwise it is the second |
| Signing.ProjectNamespace | Crypt/Program.cs:236-250 | new elements get no namespace exactly in the SDK format (first node `Project`), otherwise the MSBuild 2003 namespace |
| Signing.SigningGroup | Crypt/Program.cs:239-257 | the new element is a `PropertyGroup` in the given namespace holding exactly `SignAssembly` with text `true` and then `AssemblyOriginatorKeyFile` with the key file as text, both in the same namespace and neither a `PropertyGroup` |
| Signing.InsertAfter | Crypt/Program.cs:246 | the child list grows by one, the new node sits right after the anchor, and the nodes before and after it are unchanged |
| Signing.SignedDocument | Crypt/Program.cs:219-258 | the edit fails with no root exactly on an empty document; a successful edit keeps the number of top-level nodes and changes none but the project node |
| Signing.InsertAfterShape | Crypt/Program.cs:246 | after an insertion the list is one longer, the new node sits right after the anchor, earlier nodes stay in place and later ones move up by one |
| Signing.InsertAfterRemove | Crypt/Program.cs:246 | removing the inserted node restores the original child list |
| Signing.SignedDocumentSucceeds | Crypt/Program.cs:219-234 | the edit fails with no root on an empty document, and with no project when the only node is not `Project`; it succeeds exactly when the project node (the first node if named `Project`, otherwise the second) has a `PropertyGroup` child |
| Signing.SignedDocumentShape | Crypt/Program.cs:219-258 | exactly one node is added, right after the last `PropertyGroup` of the project node; it holds `SignAssembly`=`true` then `AssemblyOriginatorKeyFile`=key, with no namespace in the SDK format and the MSBuild 2003 namespace otherwise; the project element keeps its name and namespace, and all other nodes keep their order and content |
| Signing.SignedGroupIsLast | Crypt/Program.cs:233-258 | after the edit the new group is the project's last `PropertyGroup` |
| Signing.InsertedGroupIsLast | Crypt/Program.cs:233-246 | a `PropertyGroup` inserted right after a child with no `PropertyGroup` after it becomes the last `PropertyGroup` |
| Signing.ProjectDocument.EnableSigning | Crypt/Program.cs:217-261 | the in-place edit leaves the document as `SignedDocument` describes and reports its error; a failed edit changes nothing |
| Cli.ParseMode | Crypt/Program.cs:275 | a word yields a mode exactly when it equals that mode's name ignoring ASCII case |
| Cli.ModeNamesDistinct | Crypt/Program.cs:77-82 | no word matches two mode names, so the mode is unambiguous |
| Cli.ParseModeName | Crypt/Program.cs:275 | every spelling of a mode name that differs only in letter case selects that mode |
| Cli.EncryptDecrypt | Crypt/Program.cs:90-199 | the checks themselves never throw; a rejection for any reason other than the unhandled mode happens before anything is derived; a completed run had at least 3 arguments, an encrypt or decrypt mode word, an existing source and valid settings, and its trace is exactly the key derivation followed by the encryption (or decryption) of `args[1]` into `args[2]` with the derived key and IV |
| Cli.EnableSigningCommand | Crypt/Program.cs:201-264 | it rejects fewer than 3 arguments or a missing project, without effects; it throws exactly when the loaded document cannot be edited; it completes exactly when it can, and then its one effect saves the edited document to `args[1]` |
| Cli.Run | Crypt/Program.cs:266-295 | no arguments or an unknown mode word give -1 with no effects; no rejection has effects; the exit code is 0 exactly for a completed run; the unhandled-mode branch is never reached |
| Cli.CipherRunReached | Crypt/Program.cs:90-192 | both directions: a file is encrypted (or decrypted) exactly when there are at least 3 arguments, the mode word matches, the source exists and the settings are valid; it goes from `args[1]` to `args[2]` with a 32-byte key and a 16-byte IV that together are the first 48 derived bytes |
| Cli.NoPasswordNoEffects | Crypt/Program.cs:111-117 | without a password, encrypt and decrypt are rejected before any key derivation or file operation |
| Cli.EffectKeysFit | Crypt/Program.cs:178-192 | every file operation receives key material that AES-256 in CBC mode accepts |
| Cli.SigningRunReached | Crypt/Program.cs:201-264 | both directions: `enablesigning` saves exactly when it has more than 2 arguments, the project exists and the edit succeeds, and what it saves is the edited document |

## Left out

- AES and PBKDF2 themselves (`RijndaelManaged`, `Rfc2898DeriveBytes`) are parameters: a `Cipher` value of two functions and a `Kdf` function. Their correctness is assumed where it is needed, through the `RoundTrips` precondition of `Streams.EncryptThenDecrypt`.
- `CryptoStream`'s internal block buffering is left out. The encrypting stream collects the plaintext and emits its ciphertext at the final flush. The decrypting stream releases its plaintext after pulling in all ciphertext. When ciphertext bytes reach the destination during the loop is not modelled; only the final content is.
- `NotClosingCryptoStream` (Crypt/NotClosingCryptoStream.cs:16-22) is reduced to two facts: the final block is flushed once, on dispose, and the destination stays open (`ByteSink.closed` stays false) while the encrypting stream itself is closed.
- Streams.Encrypt: when the source raises an error, the model still flushes the ciphertext of the bytes read so far, as `Dispose` does, but the exception itself is only the `ok` flag.
- Streams.Decrypt: invalid padding, or a failing ciphertext source, is reported only at the end, after all released plaintext was written. The exact number of trailing plaintext bytes .NET withholds before throwing is not modelled.
- The file-path overloads of `Encrypt` and `Decrypt` (Crypt/Program.cs:25-32, 51-58) are left out. So are `File.Create`, `File.OpenRead` and `File.OpenWrite`. `Decrypt` opens its destination with `OpenWrite`, which does not truncate an existing longer file. `File.Exists` is a set of existing paths.
- Environment variables are parameters (`Config.Env`; `None` means unset). Console output, message wording and `PrintUsage` are left out, including the swapped format arguments at Crypt/Program.cs:134 and the `{1}` placeholder with no argument at lines 99 and 277.
- `XmlDocument` loading, saving and namespace handling are left out. A document is its list of top-level nodes, and `documents` gives what loading each path yields.
- Cli.ParseMode: `Enum.TryParse` also accepts numeric strings, comma-separated flag combinations and surrounding white space; the model accepts only the three names, folding ASCII letters only. A numeric word with no named value, such as `3`, or a combination such as `decrypt,enablesigning`, reaches `Main`'s `default` branch (Crypt/Program.cs:290-293), which prints an error and returns -1; the model rejects such words earlier, also with -1 and no effects.
- Numbers.ParseInt32: .NET also accepts trailing NUL characters after the number; the model does not.
- Cli.Run: exceptions raised inside the file operations (an unreadable source, invalid padding) are not part of its trace. Their effect on the copied bytes is stated by `Streams.Encrypt` and `Streams.Decrypt`.
- KeyDerivation.GenerateKeyAndIv: it requires a salt of at least 8 bytes and at least one iteration, where `Rfc2898DeriveBytes` throws; the public method accepts any salt. The tool always passes 8 bytes and a positive count.
- KeyDerivation.DeriveBytes.constructor: same requirement, for the same reason.
- Streams.Encrypt: it requires a 16-, 24- or 32-byte key and a 16-byte IV, where `CreateEncryptor` throws; the public overload accepts any arrays. The tool always passes 32 and 16 bytes (`Cli.EffectKeysFit`).
- Streams.Decrypt: same key and IV requirement, where `CreateDecryptor` throws.
- Numbers.ParseHexByte: .NET's `byte.TryParse` also accepts a field followed by NUL characters; the model rejects such a field, which no printable salt contains.
- Streams.Encrypt: how the ciphertext reaches the destination in separate writes is not stated; only the destination's final content is.
- Cli.EncryptDecrypt: the file operation is a trace entry, so an exception it raises is not modelled (an unreadable source, or a `CryptographicException` for bad padding after a wrong password). In the program such an exception leaves `Main` instead of returning 0.
- KeyDerivation.KeyAndIv: it requires both lengths to be at least 8 bits. `Rfc2898DeriveBytes.GetBytes` throws for a count of 0, and the tool always passes 256 and 128.

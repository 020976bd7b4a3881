/** The configuration half of `EncryptDecrypt` (Crypt/Program.cs): the
    password, the salt and the iteration count arrive as three raw texts
    (the CRYPT_PASSWORD, CRYPT_SALT and CRYPT_NUM_ITERATIONS environment
    variables, `None` when unset) and are checked in a fixed order; the
    first failed check rejects the whole configuration. */
module Config {
  import opened Wrappers
  import opened Text
  import opened Numbers

  /** Number of bytes, and so of comma-separated fields, in a salt. */
  const SaltLength: nat := 8

  /** The three raw texts the tool reads from its environment. */
  datatype Env = Env(password: Option<string>, salt: Option<string>, iterations: Option<string>)

  /** A configuration that passed every check. */
  datatype Settings = Settings(password: string, salt: seq<Byte>, iterations: int)

  /** Why a configuration was rejected; each leads to exit code -1. */
  datatype ConfigError =
    | EmptyPassword
    | EmptySalt
    | SaltFieldCount(fieldCount: nat)
    | MalformedSaltField(index: nat)
    | EmptyIterations
    | MalformedIterations
    | NonPositiveIterations(value: int)

  /** `string.IsNullOrEmpty`. */
  predicate IsNullOrEmpty(s: Option<string>)
  {
    s.None? || s.value == ""
  }

  /** The salt fields parsed left to right; the error is the index of the
      first field that is not a hex byte. */
  function ParseSaltFields(fields: seq<string>): (r: Result<seq<Byte>, nat>)
    ensures r.Ok? ==> |r.value| == |fields|
    ensures r.Err? ==> r.error < |fields|
  {
    if fields == [] then Ok([])
    else match ParseHexByte(fields[0])
      case None => Err(0)
      case Some(b) =>
        match ParseSaltFields(fields[1..])
        case Ok(rest) => Ok([b] + rest)
        case Err(i) => Err(i + 1)
  }

  /** The salt parses exactly when every field does, and then byte i is the
      value of field i. */
  lemma {:induction false} ParseSaltFieldsOk(fields: seq<string>)
    ensures ParseSaltFields(fields).Ok? <==> forall i :: 0 <= i < |fields| ==> ParseHexByte(fields[i]).Some?
    ensures ParseSaltFields(fields).Ok? ==>
      forall i :: 0 <= i < |fields| ==> ParseSaltFields(fields).value[i] == ParseHexByte(fields[i]).value
  {
    if fields != [] {
      ParseSaltFieldsOk(fields[1..]);
      assert forall i :: 1 <= i < |fields| ==> fields[i] == fields[1..][i - 1];
    }
  }

  /** A rejected salt names the first bad field: every field before it is a
      hex byte and it is not. */
  lemma {:induction false} ParseSaltFieldsErr(fields: seq<string>)
    requires ParseSaltFields(fields).Err?
    ensures var i := ParseSaltFields(fields).error;
      ParseHexByte(fields[i]).None? && forall j :: 0 <= j < i ==> ParseHexByte(fields[j]).Some?
  {
    if ParseHexByte(fields[0]).Some? {
      ParseSaltFieldsErr(fields[1..]);
      assert forall j :: 1 <= j < |fields| ==> fields[j] == fields[1..][j - 1];
    }
  }

  /** The salt loop: fill an 8-byte array field by field, stopping at the
      first field that does not parse. */
  method ParseSalt(fields: seq<string>) returns (r: Result<seq<Byte>, nat>)
    requires |fields| == SaltLength
    ensures r == ParseSaltFields(fields)
  {
    var salt := new Byte[SaltLength];
    for i := 0 to SaltLength
      invariant forall j :: 0 <= j < i ==> ParseHexByte(fields[j]).Some? && salt[j] == ParseHexByte(fields[j]).value
    {
      var b := ParseHexByte(fields[i]);
      if b.None? {
        ParseSaltFieldsOk(fields);
        if ParseSaltFields(fields).Err? {
          ParseSaltFieldsErr(fields);
        }
        return Err(i);
      }
      salt[i] := b.value;
    }
    ParseSaltFieldsOk(fields);
    assert salt[..] == ParseSaltFields(fields).value;
    return Ok(salt[..]);
  }

  /** The checks of Crypt/Program.cs:111-176 in their order. */
  function ParseSettings(env: Env): (r: Result<Settings, ConfigError>)
    ensures r.Ok? ==> r.value.password != [] && |r.value.salt| == SaltLength && 1 <= r.value.iterations <= Int32Max
  {
    if IsNullOrEmpty(env.password) then Err(EmptyPassword)
    else if IsNullOrEmpty(env.salt) then Err(EmptySalt)
    else
      var fields := Split(env.salt.value, ',');
      if |fields| != SaltLength then Err(SaltFieldCount(|fields|))
      else match ParseSaltFields(fields)
        case Err(i) => Err(MalformedSaltField(i))
        case Ok(salt) =>
          if IsNullOrEmpty(env.iterations) then Err(EmptyIterations)
          else match ParseInt32(env.iterations.value)
            case None => Err(MalformedIterations)
            case Some(n) =>
              if n <= 0 then Err(NonPositiveIterations(n))
              else Ok(Settings(env.password.value, salt, n))
  }

  /** An empty or missing password is rejected whatever the salt and the
      iteration count are: neither is looked at. */
  lemma PasswordCheckedFirst(env: Env, salt: Option<string>, iterations: Option<string>)
    requires IsNullOrEmpty(env.password)
    ensures ParseSettings(env) == ParseSettings(env.(salt := salt, iterations := iterations)) == Err(EmptyPassword)
  {
  }

  /** When the salt is rejected the iteration count is not looked at. */
  lemma SaltCheckedBeforeIterations(env: Env, iterations: Option<string>)
    requires ParseSettings(env).Err?
    requires ParseSettings(env).error.EmptySalt? || ParseSettings(env).error.SaltFieldCount?
          || ParseSettings(env).error.MalformedSaltField?
    ensures ParseSettings(env.(iterations := iterations)) == ParseSettings(env)
  {
  }

  /** The salt text is accepted only when it has exactly 8 comma-separated
      fields, that is, exactly 7 commas. */
  lemma SaltNeedsSevenCommas(env: Env)
    requires !IsNullOrEmpty(env.password) && !IsNullOrEmpty(env.salt)
    requires Count(env.salt.value, ',') != SaltLength - 1
    ensures ParseSettings(env) == Err(SaltFieldCount(Count(env.salt.value, ',') + 1))
  {
  }

  /** A configuration is accepted exactly when the password is non-empty,
      the salt splits into 8 hex bytes and the iteration count parses to a
      positive 32-bit integer; the accepted salt holds the field values in
      field order. */
  lemma {:induction false} SettingsAccepted(env: Env)
    ensures ParseSettings(env).Ok? <==>
      && !IsNullOrEmpty(env.password)
      && !IsNullOrEmpty(env.salt)
      && |Split(env.salt.value, ',')| == SaltLength
      && (forall i :: 0 <= i < SaltLength ==> ParseHexByte(Split(env.salt.value, ',')[i]).Some?)
      && !IsNullOrEmpty(env.iterations)
      && ParseInt32(env.iterations.value).Some?
      && ParseInt32(env.iterations.value).value >= 1
    ensures ParseSettings(env).Ok? ==>
      var s := ParseSettings(env).value;
      && s.password == env.password.value
      && s.iterations == ParseInt32(env.iterations.value).value
      && forall i :: 0 <= i < SaltLength ==> s.salt[i] == HexValue(Split(env.salt.value, ',')[i])
  {
    if !IsNullOrEmpty(env.password) && !IsNullOrEmpty(env.salt) {
      ParseSaltFieldsOk(Split(env.salt.value, ','));
    }
  }

  /** The salt written as two-digit hex fields is read back unchanged. */
  lemma {:induction false} SaltFieldsRoundTrip(salt: seq<Byte>)
    requires |salt| >= 1
    ensures Split(FormatSalt(salt), ',') == SaltFields(salt)
    ensures ParseSaltFields(SaltFields(salt)) == Ok(salt)
  {
    var fields := SaltFields(salt);
    SplitJoin(fields, ',');
    forall i | 0 <= i < |fields| ensures ParseHexByte(fields[i]) == Some(salt[i]) {
      ParseFormatHexByte(salt[i]);
    }
    ParseSaltFieldsOk(fields);
    assert ParseSaltFields(fields).value == salt;
  }

  /** A configuration written out the way the tool expects it is read back
      as the same settings. */
  lemma SaltRoundTrip(password: string, salt: seq<Byte>, iterations: int)
    requires password != [] && |salt| == SaltLength && 1 <= iterations <= Int32Max
    ensures ParseSettings(Env(Some(password), Some(FormatSalt(salt)), Some(FormatInt(iterations))))
      == Ok(Settings(password, salt, iterations))
  {
    SaltFieldsRoundTrip(salt);
    ParseFormatInt32(iterations);
  }

  /** Each byte of the salt as two upper-case hex digits. */
  function SaltFields(salt: seq<Byte>): (fields: seq<string>)
    ensures |fields| == |salt|
    ensures forall i :: 0 <= i < |salt| ==> fields[i] == FormatHexByte(salt[i])
  {
    seq(|salt|, i requires 0 <= i < |salt| => FormatHexByte(salt[i]))
  }

  /** A salt in the form the tool expects, such as `01,02,03,04,05,06,07,08`. */
  function FormatSalt(salt: seq<Byte>): string
  {
    Join(SaltFields(salt), ',')
  }
}

/** The command line (Crypt/Program.cs:76-82, 90-213, 266-295): the mode
    word, the argument-count and file-existence checks, the configuration
    check, and which of the three operations runs with which arguments.
    Reading the environment, asking whether a file exists and loading a
    project file are parameters; what a run does to files is returned as a
    trace of effects rather than performed. */
module Cli {
  import opened Wrappers
  import opened Text
  import opened Config
  import opened KeyDerivation
  import opened Signing
  import Streams

  /** The `Mode` enumeration. */
  datatype Mode = Encrypt | Decrypt | EnableSigning
  {
    function Name(): string
    {
      match this
      case Encrypt => "Encrypt"
      case Decrypt => "Decrypt"
      case EnableSigning => "EnableSigning"
    }
  }

  /** `Enum.TryParse(s, ignoreCase: true, out mode)` on the member names. */
  function ParseMode(s: string): (m: Option<Mode>)
    ensures forall mode: Mode :: m == Some(mode) <==> EqualsIgnoreCase(s, mode.Name())
  {
    ModeNamesDistinct(s);
    if EqualsIgnoreCase(s, "Encrypt") then Some(Encrypt)
    else if EqualsIgnoreCase(s, "Decrypt") then Some(Decrypt)
    else if EqualsIgnoreCase(s, "EnableSigning") then Some(EnableSigning)
    else None
  }

  /** No text matches two of the names, even ignoring case. */
  lemma ModeNamesDistinct(s: string)
    ensures !(EqualsIgnoreCase(s, "Encrypt") && EqualsIgnoreCase(s, "Decrypt"))
    ensures !(EqualsIgnoreCase(s, "Encrypt") && EqualsIgnoreCase(s, "EnableSigning"))
    ensures !(EqualsIgnoreCase(s, "Decrypt") && EqualsIgnoreCase(s, "EnableSigning"))
  {
    if EqualsIgnoreCase(s, "Encrypt") {
      assert ToLower(s[0]) == ToLower('E') == 'e';
    }
  }

  /** Every mode is recognised by its own name, whatever the case of its
      letters. */
  lemma ParseModeName(mode: Mode, s: string)
    requires LowerAll(s) == LowerAll(mode.Name())
    ensures ParseMode(s) == Some(mode)
  {
    LowerAllMatchesSame(s, mode.Name());
    LowerAllMatchesSame(mode.Name(), mode.Name());
    assert EqualsIgnoreCase(mode.Name(), mode.Name());
  }

  /** What a run does to the outside world, in order: derive the key and
      IV from the settings, encrypt or decrypt one file into another with
      them, or save an edited project file. */
  datatype Effect =
    | DeriveKey(settings: Settings)
    | EncryptFile(source: string, dest: string, key: seq<Byte>, iv: seq<Byte>)
    | DecryptFile(source: string, dest: string, key: seq<Byte>, iv: seq<Byte>)
    | SaveProject(path: string, nodes: seq<Node>)

  /** Why a run returns -1. */
  datatype CliError =
    | MissingArguments
    | UnknownMode
    | SourceMissing
    | ProjectMissing
    | BadConfig(config: ConfigError)
    | UnhandledMode

  /** How a run ends: it returns 0, it returns -1, or the project edit
      throws and the exception leaves `Main`. */
  datatype Outcome =
    | Completed(effects: seq<Effect>)
    | Rejected(error: CliError, effects: seq<Effect>)
    | Faulted(failure: SigningError)
  {
    /** The value `Main` returns; none when an exception escapes it. */
    function ExitCode(): Option<int>
    {
      match this
      case Completed(_) => Some(0)
      case Rejected(_, _) => Some(-1)
      case Faulted(_) => None
    }
  }

  /** `EncryptDecrypt`. The mode it is handed is overwritten by parsing
      `args[0]` again, so it takes only the arguments. Key and IV come from
      the first 32 + 16 bytes of the derived stream. */
  function EncryptDecrypt(args: seq<string>, env: Env, existing: set<string>, kdf: Kdf): (r: Outcome)
    ensures !r.Faulted?
    ensures r.Rejected? && r.error != UnhandledMode ==> r.effects == []
    ensures r.Completed? ==>
      && |args| >= 3 && args[1] in existing && ParseSettings(env).Ok?
      && ParseMode(args[0]).Some? && ParseMode(args[0]) != Some(EnableSigning)
      && var (key, iv) := DerivedKeyAndIv(ParseSettings(env).value, kdf);
         r.effects == [DeriveKey(ParseSettings(env).value),
                       if ParseMode(args[0]) == Some(Encrypt) then EncryptFile(args[1], args[2], key, iv)
                       else DecryptFile(args[1], args[2], key, iv)]
  {
    if |args| < 3 then Rejected(MissingArguments, [])
    else
      match ParseMode(args[0])
      case None => Rejected(UnknownMode, [])
      case Some(mode) =>
        if args[1] !in existing then Rejected(SourceMissing, [])
        else
          match ParseSettings(env)
          case Err(e) => Rejected(BadConfig(e), [])
          case Ok(settings) =>
            var keyAndIv := KeyAndIv(kdf(settings.password, settings.salt, settings.iterations),
                                     KeyLengthInBits, IvLengthInBits);
            var derive := DeriveKey(settings);
            match mode
            case Encrypt => Completed([derive, EncryptFile(args[1], args[2], keyAndIv.0, keyAndIv.1)])
            case Decrypt => Completed([derive, DecryptFile(args[1], args[2], keyAndIv.0, keyAndIv.1)])
            case EnableSigning => Rejected(UnhandledMode, [derive])
  }

  /** `EnableSigning`: the project path and key file come from `args[1]`
      and `args[2]`; `documents` gives what loading each existing path
      yields. */
  function EnableSigningCommand(args: seq<string>, existing: set<string>,
                                documents: string -> seq<Node>): (r: Outcome)
    ensures r.Rejected? ==> r.effects == [] && (r.error == MissingArguments || r.error == ProjectMissing)
    ensures r.Completed? <==> |args| > 2 && args[1] in existing && SignedDocument(documents(args[1]), args[2]).Ok?
    ensures r.Completed? ==> r.effects == [SaveProject(args[1], SignedDocument(documents(args[1]), args[2]).value)]
    ensures r.Faulted? <==> |args| > 2 && args[1] in existing && SignedDocument(documents(args[1]), args[2]).Err?
  {
    if |args| <= 2 then Rejected(MissingArguments, [])
    else if args[1] !in existing then Rejected(ProjectMissing, [])
    else
      match SignedDocument(documents(args[1]), args[2])
      case Err(e) => Faulted(e)
      case Ok(nodes) => Completed([SaveProject(args[1], nodes)])
  }

  /** `Main`. */
  function Run(args: seq<string>, env: Env, existing: set<string>, kdf: Kdf,
               documents: string -> seq<Node>): (r: Outcome)
    ensures r.Rejected? ==> r.effects == [] && r.error != UnhandledMode
    ensures |args| == 0 ==> r == Rejected(MissingArguments, []) && r.ExitCode() == Some(-1)
    ensures r.ExitCode() == Some(0) <==> r.Completed?
    ensures |args| > 0 && ParseMode(args[0]).None? ==> r == Rejected(UnknownMode, [])
  {
    if |args| < 1 then Rejected(MissingArguments, [])
    else
      match ParseMode(args[0])
      case None => Rejected(UnknownMode, [])
      case Some(mode) =>
        match mode
        case Encrypt => EncryptDecrypt(args, env, existing, kdf)
        case Decrypt => EncryptDecrypt(args, env, existing, kdf)
        case EnableSigning => EnableSigningCommand(args, existing, documents)
  }

  /** The key and IV `EncryptDecrypt` derives from settings. */
  function DerivedKeyAndIv(settings: Settings, kdf: Kdf): (seq<Byte>, seq<Byte>)
  {
    KeyAndIv(kdf(settings.password, settings.salt, settings.iterations), KeyLengthInBits, IvLengthInBits)
  }

  /** A file is encrypted (or decrypted) exactly when there are at least
      three arguments, the first names that mode, the source exists and the
      configuration is valid; it is then the only file operation, it goes
      from `args[1]` to `args[2]`, and it uses a 32-byte key and a 16-byte
      IV that together are the first 48 bytes derived from the settings. */
  lemma CipherRunReached(args: seq<string>, env: Env, existing: set<string>, kdf: Kdf,
                         documents: string -> seq<Node>, mode: Mode)
    requires mode != EnableSigning
    ensures var r := Run(args, env, existing, kdf, documents);
      (r.Completed? && |args| > 0 && ParseMode(args[0]) == Some(mode)) <==>
      (|args| >= 3 && EqualsIgnoreCase(args[0], mode.Name()) && args[1] in existing && ParseSettings(env).Ok?)
    ensures var r := Run(args, env, existing, kdf, documents);
      r.Completed? && |args| > 0 && ParseMode(args[0]) == Some(mode) ==>
        var settings := ParseSettings(env).value;
        var stream := kdf(settings.password, settings.salt, settings.iterations);
        exists key: seq<Byte>, iv: seq<Byte> ::
          && r.effects == [DeriveKey(settings),
                           if mode == Encrypt then EncryptFile(args[1], args[2], key, iv)
                           else DecryptFile(args[1], args[2], key, iv)]
          && |key| == 32 && |iv| == 16
          && key + iv == Slice(stream, 0, 48)
  {
    var r := Run(args, env, existing, kdf, documents);
    if r.Completed? && |args| > 0 && ParseMode(args[0]) == Some(mode) {
      var settings := ParseSettings(env).value;
      var stream := kdf(settings.password, settings.salt, settings.iterations);
      var (key, iv) := DerivedKeyAndIv(settings, kdf);
      DefaultKeyAndIv(stream);
      assert r.effects == [DeriveKey(settings),
                           if mode == Encrypt then EncryptFile(args[1], args[2], key, iv)
                           else DecryptFile(args[1], args[2], key, iv)];
    }
  }

  /** Without a password nothing is derived, encrypted or decrypted,
      whatever the salt and iteration count say. */
  lemma NoPasswordNoEffects(args: seq<string>, env: Env, existing: set<string>, kdf: Kdf,
                            documents: string -> seq<Node>)
    requires IsNullOrEmpty(env.password)
    requires |args| > 0 && ParseMode(args[0]) != Some(EnableSigning)
    ensures Run(args, env, existing, kdf, documents).Rejected?
    ensures Run(args, env, existing, kdf, documents).effects == []
  {
    PasswordCheckedFirst(env, env.salt, env.iterations);
  }

  /** The key material handed to a file operation always fits AES-256 in
      CBC mode. */
  lemma EffectKeysFit(args: seq<string>, env: Env, existing: set<string>, kdf: Kdf,
                      documents: string -> seq<Node>)
    ensures var r := Run(args, env, existing, kdf, documents);
      r.Completed? ==> forall k :: 0 <= k < |r.effects| ==>
        match r.effects[k]
        case EncryptFile(_, _, key, iv) => Streams.ValidKeyMaterial(key, iv) && |key| == 32
        case DecryptFile(_, _, key, iv) => Streams.ValidKeyMaterial(key, iv) && |key| == 32
        case _ => true
  {
    var r := Run(args, env, existing, kdf, documents);
    if r.Completed? && |args| > 0 && ParseMode(args[0]).Some? && ParseMode(args[0]).value != EnableSigning {
      var settings := ParseSettings(env).value;
      DefaultKeyAndIv(kdf(settings.password, settings.salt, settings.iterations));
    }
  }

  /** `enablesigning` saves the project exactly when it has more than two
      arguments, the project exists and the edit succeeds, and what it
      saves is the edited document. */
  lemma SigningRunReached(args: seq<string>, env: Env, existing: set<string>, kdf: Kdf,
                          documents: string -> seq<Node>)
    requires |args| > 0 && ParseMode(args[0]) == Some(EnableSigning)
    ensures Run(args, env, existing, kdf, documents).Completed? <==>
      |args| > 2 && args[1] in existing && SignedDocument(documents(args[1]), args[2]).Ok?
    ensures Run(args, env, existing, kdf, documents).Completed? ==>
      Run(args, env, existing, kdf, documents).effects ==
        [SaveProject(args[1], SignedDocument(documents(args[1]), args[2]).value)]
  {
  }
}

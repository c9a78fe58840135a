/**
 * `JournalCrypto`: the per-directory salt, the password verification token and the
 * password-bound encryption of entries.
 *
 * A journal directory moves from "no salt" to "salted" when the first `JournalCrypto` is built on
 * it, and from "salted" to "bound" when the first password is verified: that password's key
 * encrypts the constant `b"test"` into `.config`. Neither file is ever rewritten afterwards.
 */
module Crypto {
  import opened Common
  import opened Cipher
  import opened Storage

  const SaltFile := ".salt"
  const ConfigFile := ".config"
  const SaltLength := 16
  /** The JSON field of `.config` that holds the verification token. */
  const TestField := "test"
  /** `b"test"`, the plaintext of the verification token. */
  const TestPlaintext: seq<byte> := [0x74, 0x65, 0x73, 0x74]

  /** `config["test"]` when the parsed config is an object whose field "test" is a string;
      None for every shape on which the lookup or the following `.encode()` raises. */
  function TokenText(config: Json): Option<string> {
    if config.JObject? && TestField in config.fields && config.fields[TestField].JString?
    then Some(config.fields[TestField].text)
    else None
  }

  class JournalCrypto {
    const dir: Directory
    const prims: Primitives
    /** Read or created once, at construction; every key of this instance is derived from it. */
    const salt: seq<byte>

    /** The salt file on disk still holds this instance's salt. */
    ghost predicate Valid()
      reads dir
    {
      SaltFile in dir.files && dir.files[SaltFile] == salt
    }

    /** `__init__`; `freshSalt` stands for the 16 bytes `os.urandom` would return. */
    constructor (directory: Directory, prims: Primitives, freshSalt: seq<byte>)
      requires |freshSalt| == SaltLength
      modifies directory
      ensures dir == directory && this.prims == prims
      ensures SaltFile in old(directory.files) ==>
                salt == old(directory.files[SaltFile]) && directory.files == old(directory.files)
      ensures SaltFile !in old(directory.files) ==>
                salt == freshSalt && directory.files == old(directory.files)[SaltFile := freshSalt]
      ensures Valid()
    {
      var s := GetOrCreateSalt(directory, freshSalt);
      dir := directory;
      this.prims := prims;
      salt := s;
    }

    /** `_get_or_create_salt`: an existing salt file is returned byte for byte and left alone;
        otherwise the fresh salt is written and returned. */
    static method GetOrCreateSalt(directory: Directory, freshSalt: seq<byte>) returns (salt: seq<byte>)
      requires |freshSalt| == SaltLength
      modifies directory
      ensures SaltFile in old(directory.files) ==>
                salt == old(directory.files[SaltFile]) && directory.files == old(directory.files)
      ensures SaltFile !in old(directory.files) ==>
                salt == freshSalt && |salt| == SaltLength &&
                directory.files == old(directory.files)[SaltFile := freshSalt]
      ensures SaltFile in directory.files && directory.files[SaltFile] == salt
    {
      if SaltFile in directory.files {
        return directory.files[SaltFile];
      }
      salt := freshSalt;
      directory.files := directory.files[SaltFile := salt];
    }

    /** `_generate_key`: PBKDF2 over the UTF-8 password and this instance's salt. */
    function GenerateKey(password: string): Key {
      prims.kdf(prims.utf8Encode(password), salt)
    }

    /** The `.config` contents first use writes: `{"test": <token as text>}`, where the token
        encrypts `b"test"` under the password's key; None where the token is not text. */
    function BootstrapConfig(password: string, nonce: Nonce): Option<seq<byte>> {
      var token := prims.seal(GenerateKey(password), nonce, TestPlaintext);
      match prims.utf8Decode(token)
      case None => None
      case Some(text) => Some(prims.dumpJson(TestField, text))
    }

    /** The second branch of `verify_password`. Reading and parsing the config sits outside the
        `try` and raises; the field lookup and the decryption sit inside it and become `false`. */
    function CheckConfig(config: seq<byte>, password: string): Result<bool> {
      match prims.loadJson(config)
      case None => Err(ConfigurationError)
      case Some(j) =>
        Ok(match TokenText(j)
           case None => false
           case Some(text) => prims.open(GenerateKey(password), prims.utf8Encode(text)).Some?)
    }

    /** What `verify_password` returns and what the directory holds afterwards. */
    function VerifyOutcome(files: map<string, seq<byte>>, password: string, nonce: Nonce)
      : (Result<bool>, map<string, seq<byte>>)
    {
      if ConfigFile !in files then
        match BootstrapConfig(password, nonce)
        case None => (Err(DecodeError), files)
        case Some(config) => (Ok(true), files[ConfigFile := config])
      else
        (CheckConfig(files[ConfigFile], password), files)
    }

    /** `verify_password`; `nonce` is the randomness of the bootstrap encryption. */
    method VerifyPassword(password: string, nonce: Nonce) returns (r: Result<bool>)
      modifies dir
      ensures (r, dir.files) == VerifyOutcome(old(dir.files), password, nonce)
      ensures ConfigFile in old(dir.files) ==> dir.files == old(dir.files)
      ensures dir.files == old(dir.files) ||
              (ConfigFile !in old(dir.files) && ConfigFile in dir.files && r == Ok(true) &&
               dir.files == old(dir.files)[ConfigFile := dir.files[ConfigFile]])
      ensures old(Valid()) ==> Valid()
    {
      if ConfigFile !in dir.files {
        var key := GenerateKey(password);
        var token := prims.seal(key, nonce, TestPlaintext);
        var text := prims.utf8Decode(token);
        if text.None? {
          return Err(DecodeError);
        }
        var config := prims.dumpJson(TestField, text.value);
        dir.files := dir.files[ConfigFile := config];
        return Ok(true);
      }
      var parsed := prims.loadJson(dir.files[ConfigFile]);
      if parsed.None? {
        return Err(ConfigurationError);
      }
      var key := GenerateKey(password);
      var field := TokenText(parsed.value);
      if field.None? {
        return Ok(false);
      }
      var plain := prims.open(key, prims.utf8Encode(field.value));
      r := Ok(plain.Some?);
    }

    /** `encrypt`. */
    function Encrypt(content: string, password: string, nonce: Nonce): seq<byte> {
      prims.seal(GenerateKey(password), nonce, prims.utf8Encode(content))
    }

    /** `decrypt`: InvalidToken from Fernet, DecodeError from `.decode()`. */
    function Decrypt(data: seq<byte>, password: string): Result<string> {
      match prims.open(GenerateKey(password), data)
      case None => Err(InvalidToken)
      case Some(plain) =>
        match prims.utf8Decode(plain)
        case None => Err(DecodeError)
        case Some(text) => Ok(text)
    }
  }

  /** Only a config that cannot be read or parsed raises; every other failure is `false`. */
  lemma OnlyMalformedConfigRaises(c: JournalCrypto, config: seq<byte>, password: string)
    ensures c.CheckConfig(config, password).Err? <==> c.prims.loadJson(config).None?
    ensures c.CheckConfig(config, password).Err? ==> c.CheckConfig(config, password).error == ConfigurationError
    ensures forall j :: c.prims.loadJson(config) == Some(j) && TokenText(j).None? ==>
              c.CheckConfig(config, password) == Ok(false)
  {
  }

  /** On a directory without `.config` the first password is accepted, and from then on a
      password is accepted exactly when it derives the first password's key; the second call
      writes nothing. */
  lemma FirstPasswordBinds(c: JournalCrypto, files: map<string, seq<byte>>,
                           first: string, n: Nonce, later: string, n': Nonce)
    requires Sound(c.prims)
    requires ConfigFile !in files
    ensures c.VerifyOutcome(files, first, n).0 == Ok(true)
    ensures var bound := c.VerifyOutcome(files, first, n).1;
            c.VerifyOutcome(bound, later, n') == (Ok(c.GenerateKey(later) == c.GenerateKey(first)), bound)
  {
    var p := c.prims;
    var token := p.seal(c.GenerateKey(first), n, TestPlaintext);
    var text := p.utf8Decode(token).value;
    var j := JObject(map[TestField := JString(text)]);
    assert c.BootstrapConfig(first, n) == Some(p.dumpJson(TestField, text));
    assert p.loadJson(p.dumpJson(TestField, text)) == Some(j);
    assert TokenText(j) == Some(text);
    assert p.utf8Encode(text) == token;
    if c.GenerateKey(later) != c.GenerateKey(first) {
      assert p.open(c.GenerateKey(later), token) == None;
    }
  }

  /** Once a password has been accepted, the same password is accepted again by any later call,
      and that call writes nothing. */
  lemma AcceptedStaysAccepted(c: JournalCrypto, files: map<string, seq<byte>>, password: string,
                              n: Nonce, n': Nonce, later: map<string, seq<byte>>)
    requires Sound(c.prims)
    requires c.VerifyOutcome(files, password, n).0 == Ok(true)
    requires var files1 := c.VerifyOutcome(files, password, n).1;
             ConfigFile in later && files1[ConfigFile] == later[ConfigFile]
    ensures c.VerifyOutcome(later, password, n') == (Ok(true), later)
  {
    if ConfigFile !in files {
      FirstPasswordBinds(c, files, password, n, password, n');
    }
  }

  /** Round trip: what `encrypt` produces, `decrypt` with the same password returns. */
  lemma EncryptDecrypt(c: JournalCrypto, content: string, password: string, nonce: Nonce)
    requires CipherSound(c.prims) && TextSound(c.prims)
    ensures c.Decrypt(c.Encrypt(content, password, nonce), password) == Ok(content)
  {
  }

  /** A password whose derived key differs gets InvalidToken, never text. */
  lemma DecryptWrongKey(c: JournalCrypto, content: string, password: string, other: string, nonce: Nonce)
    requires CipherSound(c.prims)
    requires c.GenerateKey(other) != c.GenerateKey(password)
    ensures c.Decrypt(c.Encrypt(content, password, nonce), other) == Err(InvalidToken)
  {
  }

  /** Encrypting the same text twice with different randomness gives different bytes. */
  lemma EncryptFreshNonce(c: JournalCrypto, content: string, password: string, n: Nonce, n': Nonce)
    requires CipherSound(c.prims)
    requires n != n'
    ensures c.Encrypt(content, password, n) != c.Encrypt(content, password, n')
  {
  }

  /** Bytes too short to be a Fernet token never decrypt. */
  lemma DecryptRejectsShort(c: JournalCrypto, data: seq<byte>, password: string)
    requires TokenSound(c.prims)
    requires |data| < MinTokenLength
    ensures c.Decrypt(data, password) == Err(InvalidToken)
  {
  }

  /**
   * A session on an empty directory: the salt is created, "hunter2" becomes the password,
   * "hello world" round-trips under it and not under "wrong", "wrong" is then refused, and a
   * second instance on the same directory reads back the same salt.
   */
  method Session(p: Primitives, freshSalt: seq<byte>, otherSalt: seq<byte>, n0: Nonce, n1: Nonce, n2: Nonce)
    returns (first: Result<bool>, plain: Result<string>, wrong: Result<string>,
             second: Result<bool>, reopened: seq<byte>)
    requires Sound(p)
    requires |freshSalt| == SaltLength && |otherSalt| == SaltLength
    requires p.kdf(p.utf8Encode("wrong"), freshSalt) != p.kdf(p.utf8Encode("hunter2"), freshSalt)
    ensures first == Ok(true)
    ensures plain == Ok("hello world")
    ensures wrong == Err(InvalidToken)
    ensures second == Ok(false)
    ensures reopened == freshSalt
  {
    var d := new Directory(map[]);
    var c := new JournalCrypto(d, p, freshSalt);
    assert d.files == map[SaltFile := freshSalt];
    FirstPasswordBinds(c, d.files, "hunter2", n0, "wrong", n2);
    first := c.VerifyPassword("hunter2", n0);
    var token := c.Encrypt("hello world", "hunter2", n1);
    EncryptDecrypt(c, "hello world", "hunter2", n1);
    plain := c.Decrypt(token, "hunter2");
    DecryptWrongKey(c, "hello world", "hunter2", "wrong", n1);
    wrong := c.Decrypt(token, "wrong");
    second := c.VerifyPassword("wrong", n2);
    var c2 := new JournalCrypto(d, p, otherSalt);
    reopened := c2.salt;
  }
}

/**
 * The foreign primitives the journal relies on, held abstract.
 *
 * Key derivation is PBKDF2-HMAC-SHA256 with 480000 iterations and a 32-byte output
 * (section 5.2 of RFC 8018), base64url-encoded (section 5 of RFC 4648) into a Fernet key;
 * encryption is the Fernet token format (AES-128-CBC with an HMAC-SHA256 tag). None of this is
 * computed here: a `Primitives` value supplies each operation as a function, and the properties
 * the journal relies on are stated as the hypotheses `CipherSound`, `TextSound`, `JsonSound` and
 * `TokenSound`. They are never assumed: lemmas that need them take them as preconditions, and
 * module `Instance` shows that all four can hold together.
 */
module Cipher {
  import opened Common

  const KeyLength := 32
  /** A Fernet token embeds an 8-byte timestamp and a 16-byte random IV. */
  const NonceLength := 24

  /** The 32 bytes of derived key material (its base64url form is a bijective re-encoding). */
  type Key = k: seq<byte> | |k| == KeyLength witness seq(KeyLength, _ => 0)

  /** The fresh randomness and the clock reading that one Fernet encryption consumes. */
  type Nonce = n: seq<byte> | |n| == NonceLength witness seq(NonceLength, _ => 0)

  /** The JSON values `json.loads` can return, as far as the journal distinguishes them. */
  datatype Json =
    | JObject(fields: map<string, Json>)
    | JString(text: string)
    | JOther   // numbers, booleans, null and arrays

  datatype Primitives = Primitives(
    /** PBKDF2 over (UTF-8 password, salt); a function, hence deterministic in both. */
    kdf: (seq<byte>, seq<byte>) -> Key,
    /** `Fernet(key).encrypt(plaintext)` with the nonce made explicit. */
    seal: (Key, Nonce, seq<byte>) -> seq<byte>,
    /** `Fernet(key).decrypt(token)`: None where it raises InvalidToken. */
    open: (Key, seq<byte>) -> Option<seq<byte>>,
    /** `str.encode()`. */
    utf8Encode: string -> seq<byte>,
    /** `bytes.decode()`: None where it raises UnicodeDecodeError. */
    utf8Decode: seq<byte> -> Option<string>,
    /** `json.dumps` of the object `{key: value}` with one string field, the only shape the journal
        writes, followed by `Path.write_text`. */
    dumpJson: (string, string) -> seq<byte>,
    /** `Path.read_text` followed by `json.loads`: None where either raises. */
    loadJson: seq<byte> -> Option<Json>
  )

  /** Authenticated encryption: the right key opens a token, any other key is rejected,
      and distinct nonces give distinct tokens. */
  ghost predicate CipherSound(p: Primitives) {
    && (forall k, n, m :: p.open(k, p.seal(k, n, m)) == Some(m))
    && (forall k, k', n, m :: k' != k ==> p.open(k', p.seal(k, n, m)) == None)
    && (forall k, n, n', m :: n != n' ==> p.seal(k, n, m) != p.seal(k, n', m))
  }

  /** UTF-8 is a bijection between strings and the byte sequences that decode,
      and a Fernet token (url-safe base64) always decodes. */
  ghost predicate TextSound(p: Primitives) {
    && (forall s :: p.utf8Decode(p.utf8Encode(s)) == Some(s))
    && (forall b :: p.utf8Decode(b).Some? ==> p.utf8Encode(p.utf8Decode(b).value) == b)
    && (forall k, n, m :: p.utf8Decode(p.seal(k, n, m)).Some?)
  }

  /** What `json.dumps` writes, `json.loads` reads back. */
  ghost predicate JsonSound(p: Primitives) {
    forall key, value :: p.loadJson(p.dumpJson(key, value)) == Some(JObject(map[key := JString(value)]))
  }

  /** The shortest Fernet token: the url-safe base64 text of 73 bytes (version, timestamp, IV,
      one cipher block and the HMAC tag), padded to 100 characters. */
  const MinTokenLength := 100

  /** Fernet's shortest-input bound: `decrypt` decodes its input as base64, skipping bytes outside
      the alphabet, and needs at least 73 decoded bytes, so it accepts no input under 100 bytes. */
  ghost predicate TokenSound(p: Primitives) {
    forall k, c :: p.open(k, c).Some? ==> |c| >= MinTokenLength
  }

  ghost predicate Sound(p: Primitives) {
    CipherSound(p) && TextSound(p) && JsonSound(p)
  }
}

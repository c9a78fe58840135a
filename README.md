# secure-journal: the password-bound encryption layer and its orchestration, in Dafny

This project models the core of `secure_journal`, a journaling tool that keeps entries encrypted
at rest under one password per journal directory.

- **`JournalCrypto`** (module `Crypto`, file `crypto.dfy`) handles the two bootstrap files.
  - `.salt` is created once with 16 random bytes, and every later instance reads it back.
  - `.config` holds a verification token: the first password ever supplied encrypts `b"test"`, and
    the token is written exactly once. Every later password is checked by trying to decrypt it.
  - `encrypt` and `decrypt` derive the key again from the password and the salt on every call.
- **`SecureJournal`** (module `Journal`, file `journal.dfy`) implements `create_entry`,
  `read_entry` and `request_therapy`. They work on the directory, modelled as a
  `map<string, seq<byte>>` field of a `Directory` object (module `Storage`). The model states
  which files each operation writes and which it leaves untouched.
- **`Editor.open_buffer`** (module `Editor`, file `editor.dfy`) has two pure pieces of string
  handling: the escaping that puts the initial text inside an Emacs Lisp string literal, and the
  `strip().strip('"')` clean-up of the editor's output.

The cryptography is not computed. Module `Cipher` holds a `Primitives` record with each foreign
operation as a function value:

- PBKDF2-HMAC-SHA256 (section 5.2 of RFC 8018: 480000 iterations, 32-byte key), followed by the
  base64url encoding of section 5 of RFC 4648;
- Fernet encryption and decryption;
- UTF-8 encoding and decoding;
- `json.dumps` and `json.loads`.

What the journal relies on is stated as hypotheses on that record:

- `CipherSound`: the right key opens a token; any other key is rejected; distinct nonces give
  distinct tokens.
- `TextSound`: UTF-8 is a bijection onto the byte sequences that decode, and Fernet tokens decode.
- `JsonSound`: what `json.dumps` writes for a one-field object with a string value (the only shape
  the journal writes), `json.loads` reads back.
- `TokenSound`: Fernet's `decrypt` rejects any input shorter than 100 bytes. Its base64 decoding
  skips bytes outside the alphabet, but a token needs at least 73 decoded bytes.

No hypothesis is assumed anywhere. Lemmas that need one take `Sound(p)` (the first three together)
or `TokenSound(p)` as a precondition, and the
operations themselves have no such requirement. Module `Instance` (file `instance.dfy`) builds one
`Primitives` value that satisfies all four hypotheses at once. Its key derivation depends on the
password, so the key-distinctness preconditions of `DecryptWrongKey` and `Session` can be met as
well (`SessionIsCallable`).

Each imperative method is proved equal to a transition function on the map of files:
`VerifyOutcome`, `TherapyOutcome`, `CreateOutcome` and `ReadOutcome`. The properties are lemmas
about those functions.

Three behaviours of the code are worth stating outright:

- The code accepts an existing `.salt` of any length as is.
- A `.config` that parses as JSON but lacks a string field `"test"` makes `verify_password`
  return `false`; only a `.config` that cannot be read or parsed raises a configuration error.
- `read_entry` and `request_therapy` catch every exception inside their `try`. This includes the
  editor failing and the decrypted bytes not being UTF-8, not only a wrong key.

## Model

| member | source | states |
|---|---|---|
| `Crypto.JournalCrypto.constructor` | src/secure_journal/crypto.py:14-24 | the salt is fixed at construction: an existing `.salt` is taken byte for byte and nothing is written; otherwise exactly the 16 fresh bytes are written to `.salt` and become the salt; afterwards `.salt` holds the instance's salt |
| `Crypto.JournalCrypto.GetOrCreateSalt` | src/secure_journal/crypto.py:26-37 | an existing salt file is returned unchanged with nothing written; otherwise the fresh 16 bytes are written to `.salt` only, and those same bytes are returned |
| `Crypto.JournalCrypto.GenerateKey` | src/secure_journal/crypto.py:39-56 | computes the key from the UTF-8 password and the instance's salt. Its properties are stated by `FirstPasswordBinds` (acceptance depends on the derived key only) and `DecryptWrongKey` |
| `Crypto.JournalCrypto.CheckConfig` | src/secure_journal/crypto.py:75-82 | checks an existing `.config`: parsing sits outside the `try`, the field lookup and the decryption inside it. Stated by `OnlyMalformedConfigRaises` and `FirstPasswordBinds` |
| `Crypto.JournalCrypto.VerifyOutcome` | src/secure_journal/crypto.py:68-82 | the result and new directory of `verify_password`. Stated by `VerifyPassword`, `FirstPasswordBinds` and `AcceptedStaysAccepted` |
| `Crypto.JournalCrypto.Encrypt` | src/secure_journal/crypto.py:84-96 | `encrypt`: the Fernet token of the UTF-8 text under the password's key. Stated by `EncryptDecrypt` and `EncryptFreshNonce` |
| `Crypto.JournalCrypto.Decrypt` | src/secure_journal/crypto.py:98-113 | `decrypt`: Fernet's InvalidToken first, then UTF-8 decoding. Stated by `EncryptDecrypt`, `DecryptWrongKey` and `DecryptRejectsShort` |
| `Crypto.JournalCrypto.VerifyPassword` | src/secure_journal/crypto.py:58-82 | without `.config`: writes `{"test": token}` for the token of `b"test"` under the password's key and returns true; with `.config`: writes nothing and returns the outcome of decrypting the stored token; no other file is ever touched, and `.config` is never rewritten; the salt file still holds the instance's salt afterwards |
| `Crypto.OnlyMalformedConfigRaises` | src/secure_journal/crypto.py:75-80 | the check raises exactly when `.config` cannot be read or parsed (that call is outside the `try`); a missing or non-string `"test"` field gives false, because the lookup is inside it |
| `Crypto.FirstPasswordBinds` | src/secure_journal/crypto.py:68-82 | on a directory without `.config` the first password is accepted; from then on a password is accepted if and only if its derived key equals the first password's key, and checking writes nothing |
| `Crypto.AcceptedStaysAccepted` | src/secure_journal/crypto.py:58-82 | once a password has been accepted, it is accepted again, with nothing written, by any later check that sees the same `.config` |
| `Crypto.EncryptDecrypt` | src/secure_journal/crypto.py:84-113 | `decrypt(encrypt(content, w), w)` returns `content` |
| `Crypto.DecryptWrongKey` | src/secure_journal/crypto.py:98-113 | decrypting with a password whose derived key differs fails with InvalidToken and never returns text |
| `Crypto.EncryptFreshNonce` | src/secure_journal/crypto.py:84-96 | encrypting the same text twice with different randomness gives different ciphertexts |
| `Crypto.DecryptRejectsShort` | src/secure_journal/crypto.py:98-113 | bytes shorter than a Fernet token always fail with InvalidToken |
| `Crypto.Session` | src/secure_journal/crypto.py:14-113 | scenario on an empty directory: "hunter2" is accepted first; "hello world" round-trips under it; "wrong" gets InvalidToken and is then refused; a second instance reads back the same salt |
| `Instance.InstanceIsSound` | src/secure_journal/crypto.py:68-113 | the hypotheses are consistent: one concrete set of primitives satisfies the cipher, text, JSON and token-length hypotheses together |
| `Instance.InstanceCipherSound` | src/secure_journal/crypto.py:84-113 | that cipher opens its own tokens, rejects every other key, and gives distinct tokens for distinct nonces |
| `Instance.InstanceTextSound` | src/secure_journal/crypto.py:70-113 | that text encoding is a bijection onto the bytes that decode, and its tokens decode as text |
| `Instance.InstanceJsonSound` | src/secure_journal/crypto.py:70-75 | that JSON encoding of `{key: value}` reads back as the same one-field object |
| `Instance.SessionIsCallable` | src/secure_journal/crypto.py:39-56 | with those primitives, which derive keys from the password, "wrong" and "hunter2" get different keys under every salt, so `Session` can be called |
| `Journal.SecureJournal.constructor` | src/secure_journal/journal.py:17-28 | the journal and its crypto manager share one directory; the salt rules of `JournalCrypto` apply |
| `Journal.SecureJournal.CreateEntry` | src/secure_journal/journal.py:30-54 | the returned status and the new directory are exactly `CreateOutcome` of the old directory; the salt file keeps the instance's salt |
| `Journal.SecureJournal.ReadEntry` | src/secure_journal/journal.py:56-88 | the returned status and the new directory are exactly `ReadOutcome` of the old directory; unless `.salt` itself is read, the salt file keeps the instance's salt |
| `Journal.SecureJournal.RequestTherapy` | src/secure_journal/journal.py:90-126 | the returned status and the new directory are exactly `TherapyOutcome` of the old directory; the salt file keeps the instance's salt |
| `Journal.CreateEffects` | src/secure_journal/journal.py:37-54 | a rejected password writes nothing at all; a raised error writes no entry; content that is missing, empty or `"nil"` is discarded. Otherwise exactly `<timestamp>.enc`, holding `encrypt(content)`, is added, then the therapy request runs on that name. Apart from the first-use `.config`, no other file changes |
| `Journal.ReadEffects` | src/secure_journal/journal.py:68-88 | a rejected password writes nothing. A missing file, a failed decryption or a failed editor leave every file except the first-use `.config` untouched, including the entry's bytes. `NotFound` is reported if and only if the password is accepted and the file is missing. `Updated` is reported if and only if the password is accepted, the file exists and decrypts, and the editor returns. Then only `filename` is replaced, by the encryption of the edited text, even when that text is empty |
| `Journal.TherapyEffects` | src/secure_journal/journal.py:107-122 | for any caller, the command-line `--therapy` path included: the therapy is saved if and only if the password is accepted, the entry exists and decrypts, and the edited analysis of its text is non-empty; then exactly `<timestamp>_therapy.enc` is added, holding the encryption of that response. An empty response is reported and saves nothing. Apart from the first-use `.config`, nothing else changes, and the analysed entry keeps its bytes unless it is that very file |
| `Journal.CreateThenTherapy` | src/secure_journal/journal.py:44-52 | inside `create_entry`, the therapy request always passes the password check and the decryption: it analyses exactly the text just saved, then saves the non-empty edited response, reports an empty one, or reports an editor failure |
| `Journal.ReadBackCreatedEntry` | src/secure_journal/journal.py:73-86 | reading an entry `create_entry` just saved, with the same password, opens an editor whose buffer starts with exactly the saved text; only that entry is re-encrypted |
| `Journal.TherapyKeepsCryptoFiles` | src/secure_journal/journal.py:90-126 | `request_therapy` never rewrites or removes `.salt` or `.config`, including a `.config` its own password check has just written |
| `Journal.CreateKeepsCryptoFiles` | src/secure_journal/journal.py:30-54 | `create_entry`, with its therapy request, never rewrites or removes `.salt` or `.config` |
| `Journal.ReadKeepsCryptoFiles` | src/secure_journal/journal.py:56-88 | `read_entry` of any other file never rewrites or removes `.salt` or `.config` |
| `Journal.ReadSaltFileFails` | src/secure_journal/journal.py:68-88 | `read_entry` called on a `.salt` shorter than a Fernet token fails with InvalidToken once the password is accepted, and writes nothing beyond the password check |
| `Journal.NamesAvoidCryptoFiles` | src/secure_journal/journal.py:44-45 | entry and therapy file names are never `.salt` or `.config` |
| `Journal.TherapyNameIsNotEntryName` | src/secure_journal/journal.py:116-117 | for timestamps of one format, and so for the same timestamp, the therapy file name differs from every entry file name: saving the analysis never overwrites an entry |
| `Editor.Escape` | src/secure_journal/editor.py:39-43 | the two chained replacements, with `if initial_content`. Stated by `EscapeIsPerChar`, `EscapeLength` and `ElispReadsBack` |
| `Editor.EscapeIsPerChar` | src/secure_journal/editor.py:39-43 | None and the empty string escape to the empty string; otherwise each `\` becomes `\\`, each `"` becomes `\"`, and every other character is copied unchanged and in order |
| `Editor.EscapeLength` | src/secure_journal/editor.py:40 | the escaped text's length is the input's length plus its number of `\` and `"` characters |
| `Editor.ElispReadsBack` | src/secure_journal/editor.py:39-53 | reading the escaped text back as the body of an Emacs Lisp string literal gives exactly the original text, or the empty string for None |
| `Editor.ReadLiteralOnlyFromEscape` | src/secure_journal/editor.py:53 | conversely, the escaped form is the only literal body that reads back as a given text |
| `Editor.QuotesFirstBreaksLiteral` | src/secure_journal/editor.py:40 | the order of the two replacements matters: escaping quotes first turns `"` into `\\"`, which ends the literal early |
| `Editor.StripSpec` | src/secure_journal/editor.py:102 | `strip` keeps a contiguous middle of its input: everything outside it is stripped, and the middle is either empty or starts and ends with a kept character |
| `Editor.Cleanup` | src/secure_journal/editor.py:78 | `strip().strip('"')`, as at lines 78 and 102. Stated by `CleanupSpec`, `StripSpec` and `CleanupIdempotent` |
| `Editor.CleanupSpec` | src/secure_journal/editor.py:78 | `strip().strip('"')`, used at lines 78 and 102, returns a contiguous substring of its input that neither starts nor ends with `"` |
| `Editor.CleanupIdempotent` | src/secure_journal/editor.py:102 | cleaning up twice equals cleaning up once when the first result has no whitespace at either end |
| `Editor.CleanupNotIdempotent` | src/secure_journal/editor.py:102 | without that condition it fails: `" x"` with its quotes cleans up to ` x`, which cleans up again to `x` |
| `Editor.OpenBuffer` | src/secure_journal/editor.py:38-102 | `open_buffer`: escape, the Emacs session, then the clean-up. Stated by `OpenBufferShowsInitial` |
| `Editor.OpenBufferShowsInitial` | src/secure_journal/editor.py:38-102 | the editor session starts from exactly the text `open_buffer` was given (empty for None), and the result is the cleaned-up output, or a failure |

## Left out

- PBKDF2, HMAC, AES, base64 and the `cryptography` library are foreign code. They are fields of
  `Primitives`, with the hypotheses above. Key derivation is deterministic because it is a function.
- Tamper detection is not stated. Fernet's `decrypt` decodes its input leniently: it skips bytes
  outside the base64 alphabet, accepts `+` and `/`, and ignores what follows the padding. It
  therefore accepts byte strings that `encrypt` never wrote, and a faithful statement needs a model
  of that decoding, which is not given.
- `read_entry` on `.config` itself: the model does not prove that it fails. In the source it fails
  because the leniently decoded JSON text does not start with Fernet's version byte 0x80. That
  depends on the decoding left out above.
- ReadSaltFileFails: covers `.salt` only when it is shorter than a Fernet token. The code accepts
  a salt file of any length, and one of 100 or more url-safe base64 bytes could in principle be a
  token under its own key. A salt the code writes has 16 bytes.
- The "any other key is rejected" clause of `CipherSound` is an idealisation. Fernet splits the
  32-byte key into an HMAC half and an AES half. A key that shares only the HMAC half passes the tag
  check, and the PKCS7 unpadding then rejects it only about 255 times in 256. The clause holds because
  keys derived from different passwords share the HMAC half with negligible probability.
- DecryptWrongKey: is stated for a password whose derived key differs, not for every different
  password, because distinct passwords are not proved to derive distinct keys. `FirstPasswordBinds`
  is phrased the same way.
- `os.urandom` and Fernet's own IV and clock are explicit parameters: the fresh salt, and a
  24-byte nonce per encryption. Fernet's time-to-live check is not used by the source.
- UTF-8 `encode`/`decode` are abstract functions. Python strings may contain lone surrogates and
  Dafny characters cannot, so those strings are outside the model.
- `time.strftime` is a timestamp parameter. `ReadBackCreatedEntry` asks only that the two
  timestamps of one `create_entry` call have the same length, as strings of one format do.
- `src/secure_journal/therapy.py` is not part of this model. `analyze_entry` is a function
  parameter returning an optional response (it catches its own errors), and the prompt template
  is not modelled.
- `src/secure_journal/__main__.py` (argument parsing, `getpass`, the `KeyboardInterrupt` handler)
  is not part of this model.
- Every `subprocess` call, the Emacs server start-up, `time.sleep` and the `Editor` constructor
  are process I/O. An editor `Session` maps the buffer's initial text to the raw output of the
  last `emacsclient` call, or to a failure. The buffer-name round trip (lines 44-100 of
  `editor.py`) is not modelled apart from the clean-up function it applies at line 78.
- The Emacs Lisp reader is modelled only for the escapes `\\` and `\"`, the only ones the
  escaping produces. Any other escape is treated as a read failure.
- `print` messages are the returned `Status`.
- Storage failures are not modelled: writes always succeed, and a directory named like an entry
  does not exist. File names are plain map keys, so paths such as `../x` are not resolved.
  `mkdir` in `SecureJournal.__init__` is taken as done.
- Races between processes creating `.salt` or `.config` are not modelled. This is concurrency,
  and the source does not coordinate it.

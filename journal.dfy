/**
 * `SecureJournal`: creating, reading and analysing entries over the journal directory.
 *
 * The collaborators are inputs: an editor `Session` for each `open_buffer` call, the analysis
 * service as a function from entry text to an optional response, the clock as the timestamp
 * strings `time.strftime` would return, and the randomness of each encryption as a nonce.
 * What each method prints is returned as a `Status`.
 */
module Journal {
  import opened Common
  import opened Cipher
  import opened Storage
  import opened Crypto
  import opened Editor

  datatype Status =
    | IncorrectPassword               // "Incorrect password for this journal directory"
    | Raised(error: Error)            // an exception leaves the method
    | NotFound                        // "Entry ... not found"
    | Failed(error: Error)            // caught by the method's own `except Exception`
    | Discarded                       // "No content written, entry discarded"
    | Saved(entry: string, therapy: Status)  // "Entry saved as ...", then the therapy request
    | Updated                         // `read_entry` re-encrypted the edited text
    | NoResponse                      // the edited therapy response was empty: nothing saved
    | TherapySaved(name: string)      // "Therapy response saved as ..."

  /** What one `request_therapy` call consumes besides its arguments. */
  datatype TherapyInputs = TherapyInputs(
    verifyNonce: Nonce,
    analyze: string -> Option<string>,   // `TherapySession.analyze_entry`; None on any error
    review: Session,                     // the editor session that edits the response
    stamp: string,                       // `time.strftime("%Y%m%d_%H%M%S")`
    nonce: Nonce)

  /** What one `create_entry` call consumes besides the password. */
  datatype EntryInputs = EntryInputs(
    verifyNonce: Nonce,
    write: Session,                      // the editor session that writes the entry
    stamp: string,
    nonce: Nonce,
    therapy: TherapyInputs)

  /** What one `read_entry` call consumes besides its arguments. */
  datatype ReadInputs = ReadInputs(
    verifyNonce: Nonce,
    edit: Session,                       // the editor session on the decrypted entry
    nonce: Nonce)

  function EntryName(stamp: string): string {
    stamp + ".enc"
  }

  function TherapyName(stamp: string): string {
    stamp + "_therapy.enc"
  }

  class SecureJournal {
    const dir: Directory
    const crypto: JournalCrypto

    /** The journal and its crypto manager work on one directory. */
    ghost predicate Valid() {
      crypto.dir == dir
    }

    /** `__init__` on an existing directory; the editor and the analysis client are inputs of the
        methods instead. */
    constructor (directory: Directory, prims: Primitives, freshSalt: seq<byte>)
      requires |freshSalt| == SaltLength
      modifies directory
      ensures Valid() && dir == directory && crypto.prims == prims && crypto.Valid()
      ensures SaltFile in old(directory.files) ==>
                crypto.salt == old(directory.files[SaltFile]) && directory.files == old(directory.files)
      ensures SaltFile !in old(directory.files) ==>
                crypto.salt == freshSalt && directory.files == old(directory.files)[SaltFile := freshSalt]
    {
      var c := new JournalCrypto(directory, prims, freshSalt);
      dir := directory;
      crypto := c;
    }

    /** What `request_therapy` reports and what the directory holds afterwards. */
    function TherapyOutcome(files: map<string, seq<byte>>, entryFilename: string, password: string,
                            t: TherapyInputs): (Status, map<string, seq<byte>>)
    {
      var (verified, files1) := crypto.VerifyOutcome(files, password, t.verifyNonce);
      if verified.Err? then (Raised(verified.error), files1)
      else if !verified.value then (IncorrectPassword, files1)
      else if entryFilename !in files1 then (NotFound, files1)
      else
        match crypto.Decrypt(files1[entryFilename], password)
        case Err(e) => (Failed(e), files1)
        case Ok(content) =>
          match OpenBuffer(t.review, t.analyze(content))
          case None => (Failed(EditorFailed), files1)
          case Some(final) =>
            if final == "" then (NoResponse, files1)
            else
              var name := TherapyName(t.stamp);
              (TherapySaved(name), files1[name := crypto.Encrypt(final, password, t.nonce)])
    }

    method RequestTherapy(entryFilename: string, password: string, t: TherapyInputs) returns (s: Status)
      requires Valid()
      modifies dir
      ensures (s, dir.files) == TherapyOutcome(old(dir.files), entryFilename, password, t)
      ensures old(crypto.Valid()) ==> crypto.Valid()
    {
      TherapyKeepsCryptoFiles(this, dir.files, entryFilename, password, t);
      var verified := crypto.VerifyPassword(password, t.verifyNonce);
      if verified.Err? {
        return Raised(verified.error);
      }
      if !verified.value {
        return IncorrectPassword;
      }
      if entryFilename !in dir.files {
        return NotFound;
      }
      var encrypted := dir.files[entryFilename];
      var content := crypto.Decrypt(encrypted, password);
      if content.Err? {
        return Failed(content.error);
      }
      var result := t.analyze(content.value);
      var final := OpenBuffer(t.review, result);
      if final.None? {
        return Failed(EditorFailed);
      }
      if final.value != "" {
        var name := TherapyName(t.stamp);
        dir.files := dir.files[name := crypto.Encrypt(final.value, password, t.nonce)];
        s := TherapySaved(name);
      } else {
        s := NoResponse;
      }
    }

    /** What `create_entry` reports and what the directory holds afterwards. */
    function CreateOutcome(files: map<string, seq<byte>>, password: string, e: EntryInputs)
      : (Status, map<string, seq<byte>>)
    {
      var (verified, files1) := crypto.VerifyOutcome(files, password, e.verifyNonce);
      if verified.Err? then (Raised(verified.error), files1)
      else if !verified.value then (IncorrectPassword, files1)
      else
        match OpenBuffer(e.write, None)
        case None => (Raised(EditorFailed), files1)
        case Some(content) =>
          if content == "" || content == "nil" then (Discarded, files1)
          else
            var name := EntryName(e.stamp);
            var files2 := files1[name := crypto.Encrypt(content, password, e.nonce)];
            var (therapy, files3) := TherapyOutcome(files2, name, password, e.therapy);
            (Saved(name, therapy), files3)
    }

    method CreateEntry(password: string, e: EntryInputs) returns (s: Status)
      requires Valid()
      modifies dir
      ensures (s, dir.files) == CreateOutcome(old(dir.files), password, e)
      ensures old(crypto.Valid()) ==> crypto.Valid()
    {
      CreateKeepsCryptoFiles(this, dir.files, password, e);
      var verified := crypto.VerifyPassword(password, e.verifyNonce);
      if verified.Err? {
        return Raised(verified.error);
      }
      if !verified.value {
        return IncorrectPassword;
      }
      var content := OpenBuffer(e.write, None);
      if content.None? {
        return Raised(EditorFailed);
      }
      if content.value != "" && content.value != "nil" {
        var name := EntryName(e.stamp);
        dir.files := dir.files[name := crypto.Encrypt(content.value, password, e.nonce)];
        var therapy := RequestTherapy(name, password, e.therapy);
        s := Saved(name, therapy);
      } else {
        s := Discarded;
      }
    }

    /** What `read_entry` reports and what the directory holds afterwards. */
    function ReadOutcome(files: map<string, seq<byte>>, filename: string, password: string, r: ReadInputs)
      : (Status, map<string, seq<byte>>)
    {
      var (verified, files1) := crypto.VerifyOutcome(files, password, r.verifyNonce);
      if verified.Err? then (Raised(verified.error), files1)
      else if !verified.value then (IncorrectPassword, files1)
      else if filename !in files1 then (NotFound, files1)
      else
        match crypto.Decrypt(files1[filename], password)
        case Err(e) => (Failed(e), files1)
        case Ok(content) =>
          match OpenBuffer(r.edit, Some(content))
          case None => (Failed(EditorFailed), files1)
          case Some(updated) => (Updated, files1[filename := crypto.Encrypt(updated, password, r.nonce)])
    }

    method ReadEntry(filename: string, password: string, r: ReadInputs) returns (s: Status)
      requires Valid()
      modifies dir
      ensures (s, dir.files) == ReadOutcome(old(dir.files), filename, password, r)
      ensures old(crypto.Valid()) && filename != SaltFile ==> crypto.Valid()
    {
      ReadKeepsCryptoFiles(this, dir.files, filename, password, r);
      var verified := crypto.VerifyPassword(password, r.verifyNonce);
      if verified.Err? {
        return Raised(verified.error);
      }
      if !verified.value {
        return IncorrectPassword;
      }
      if filename !in dir.files {
        return NotFound;
      }
      var encrypted := dir.files[filename];
      var content := crypto.Decrypt(encrypted, password);
      if content.Err? {
        return Failed(content.error);
      }
      var updated := OpenBuffer(r.edit, Some(content.value));
      if updated.None? {
        return Failed(EditorFailed);
      }
      dir.files := dir.files[filename := crypto.Encrypt(updated.value, password, r.nonce)];
      s := Updated;
    }
  }

  /** `name`, if `before` has it, is still in `after` with the same bytes. */
  predicate Keeps(before: map<string, seq<byte>>, after: map<string, seq<byte>>, name: string) {
    name in before ==> name in after && after[name] == before[name]
  }

  /** Neither `.salt` nor `.config` is rewritten or removed once it exists. */
  predicate KeepsCryptoFiles(before: map<string, seq<byte>>, after: map<string, seq<byte>>) {
    Keeps(before, after, SaltFile) && Keeps(before, after, ConfigFile)
  }

  /** An entry or therapy file name never collides with the salt or the config file. */
  lemma NamesAvoidCryptoFiles(stamp: string)
    ensures EntryName(stamp) != SaltFile && EntryName(stamp) != ConfigFile
    ensures TherapyName(stamp) != SaltFile && TherapyName(stamp) != ConfigFile
  {
    var e, t := EntryName(stamp), TherapyName(stamp);
    assert e[|e| - 1] == 'c' && t[|t| - 1] == 'c';
    assert SaltFile[|SaltFile| - 1] == 't' && ConfigFile[|ConfigFile| - 1] == 'g';
  }

  /** Timestamps of one format have one length, so saving analysis never clobbers an entry:
      in particular not the entry just written under the same timestamp. */
  lemma TherapyNameIsNotEntryName(stamp: string, entryStamp: string)
    requires |stamp| == |entryStamp|
    ensures TherapyName(stamp) != EntryName(entryStamp)
  {
    assert |TherapyName(stamp)| != |EntryName(entryStamp)|;
  }

  /** `request_therapy` writes at most the one file `<timestamp>_therapy.enc`, only when the edited
      response is non-empty, and beyond the first-use config it changes nothing else; the entry
      it analyses keeps its bytes unless it is that very file. */
  lemma TherapyEffects(j: SecureJournal, files: map<string, seq<byte>>, entryFilename: string,
                       password: string, t: TherapyInputs)
    ensures var (s, f) := j.TherapyOutcome(files, entryFilename, password, t);
            var files1 := j.crypto.VerifyOutcome(files, password, t.verifyNonce).1;
            && (s == IncorrectPassword ==> f == files)
            && (!s.TherapySaved? ==> f == files1)
            && (s.TherapySaved? ==>
                  s.name == TherapyName(t.stamp) && s.name in f && f == files1[s.name := f[s.name]])
            && (entryFilename in files1 && entryFilename != TherapyName(t.stamp) ==>
                  entryFilename in f && f[entryFilename] == files1[entryFilename])
            && (s.TherapySaved? <==>
                  var (verified, files1) := j.crypto.VerifyOutcome(files, password, t.verifyNonce);
                  && verified == Ok(true) && entryFilename in files1
                  && j.crypto.Decrypt(files1[entryFilename], password).Ok?
                  && var response := OpenBuffer(t.review, t.analyze(j.crypto.Decrypt(files1[entryFilename], password).value));
                     && response.Some? && response.value != ""
                     && f == files1[TherapyName(t.stamp) := j.crypto.Encrypt(response.value, password, t.nonce)])
            && (s == NoResponse <==>
                  var (verified, files1) := j.crypto.VerifyOutcome(files, password, t.verifyNonce);
                  && verified == Ok(true) && entryFilename in files1
                  && j.crypto.Decrypt(files1[entryFilename], password).Ok?
                  && OpenBuffer(t.review, t.analyze(j.crypto.Decrypt(files1[entryFilename], password).value)) == Some(""))
  {
  }

  /** `create_entry`: a rejected password or a raised error writes no entry, empty or "nil"
      content is discarded, and otherwise exactly `<timestamp>.enc` is written with the encrypted
      content, then the therapy request runs on it. Beyond the first-use config, no other file
      changes. */
  lemma CreateEffects(j: SecureJournal, files: map<string, seq<byte>>, password: string, e: EntryInputs)
    ensures var (s, f) := j.CreateOutcome(files, password, e);
            var (verified, files1) := j.crypto.VerifyOutcome(files, password, e.verifyNonce);
            var content := OpenBuffer(e.write, None);
            && (s == IncorrectPassword ==> f == files)
            && (!s.Saved? ==> f == files1)
            && (s == Discarded <==>
                  verified == Ok(true) && content.Some? && (content.value == "" || content.value == "nil"))
            && (s.Saved? <==>
                  verified == Ok(true) && content.Some? && content.value != "" && content.value != "nil")
            && (s.Saved? ==>
                  var files2 := files1[s.entry := j.crypto.Encrypt(content.value, password, e.nonce)];
                  s.entry == EntryName(e.stamp) &&
                  (s.therapy, f) == j.TherapyOutcome(files2, s.entry, password, e.therapy))
  {
  }

  /** `read_entry` writes only `filename` and only on success, with the encrypted edited text
      (even when empty); a missing file, a failed decryption or a failed editor leave every file
      but the first-use config as it was. */
  lemma ReadEffects(j: SecureJournal, files: map<string, seq<byte>>, filename: string, password: string,
                    r: ReadInputs)
    ensures var (s, f) := j.ReadOutcome(files, filename, password, r);
            var (verified, files1) := j.crypto.VerifyOutcome(files, password, r.verifyNonce);
            && (s == IncorrectPassword ==> f == files)
            && (s != Updated ==> f == files1)
            && (s == NotFound <==> verified == Ok(true) && filename !in files1)
            && (s == Updated <==>
                  verified == Ok(true) && filename in files1 &&
                  j.crypto.Decrypt(files1[filename], password).Ok? &&
                  OpenBuffer(r.edit, Some(j.crypto.Decrypt(files1[filename], password).value)).Some?)
            && (s == Updated ==>
                  filename in files1 && j.crypto.Decrypt(files1[filename], password).Ok? &&
                  var updated := OpenBuffer(r.edit, Some(j.crypto.Decrypt(files1[filename], password).value));
                  updated.Some? &&
                  f == files1[filename := j.crypto.Encrypt(updated.value, password, r.nonce)])
  {
  }

  /** `request_therapy` never rewrites `.salt` or `.config`, including a `.config` its own password
      check has just written. */
  lemma TherapyKeepsCryptoFiles(j: SecureJournal, files: map<string, seq<byte>>, entryFilename: string,
                                password: string, t: TherapyInputs)
    ensures var files1 := j.crypto.VerifyOutcome(files, password, t.verifyNonce).1;
            var f := j.TherapyOutcome(files, entryFilename, password, t).1;
            KeepsCryptoFiles(files, f) && KeepsCryptoFiles(files1, f)
  {
    NamesAvoidCryptoFiles(t.stamp);
  }

  /** `create_entry`, therapy request included, never rewrites `.salt` or `.config`. */
  lemma CreateKeepsCryptoFiles(j: SecureJournal, files: map<string, seq<byte>>, password: string, e: EntryInputs)
    ensures var files1 := j.crypto.VerifyOutcome(files, password, e.verifyNonce).1;
            var f := j.CreateOutcome(files, password, e).1;
            KeepsCryptoFiles(files, f) && KeepsCryptoFiles(files1, f)
  {
    var files1 := j.crypto.VerifyOutcome(files, password, e.verifyNonce).1;
    var content := OpenBuffer(e.write, None);
    NamesAvoidCryptoFiles(e.stamp);
    if content.Some? {
      var files2 := files1[EntryName(e.stamp) := j.crypto.Encrypt(content.value, password, e.nonce)];
      TherapyKeepsCryptoFiles(j, files2, EntryName(e.stamp), password, e.therapy);
    }
  }

  /** `read_entry` rewrites `.salt` or `.config` only when asked to read that very file. */
  lemma ReadKeepsCryptoFiles(j: SecureJournal, files: map<string, seq<byte>>, filename: string,
                             password: string, r: ReadInputs)
    ensures var files1 := j.crypto.VerifyOutcome(files, password, r.verifyNonce).1;
            var f := j.ReadOutcome(files, filename, password, r).1;
            && (filename != SaltFile ==> Keeps(files, f, SaltFile) && Keeps(files1, f, SaltFile))
            && (filename != ConfigFile ==> Keeps(files, f, ConfigFile) && Keeps(files1, f, ConfigFile))
  {
  }

  /** Asked to read `.salt` itself, `read_entry` fails with InvalidToken once the password is
      accepted, and writes nothing beyond the password check: a salt shorter than a Fernet token
      (as the 16 bytes the code writes are) never decrypts. */
  lemma ReadSaltFileFails(j: SecureJournal, files: map<string, seq<byte>>, password: string, r: ReadInputs)
    requires TokenSound(j.crypto.prims)
    requires SaltFile in files ==> |files[SaltFile]| < MinTokenLength
    ensures var (verified, files1) := j.crypto.VerifyOutcome(files, password, r.verifyNonce);
            var (s, f) := j.ReadOutcome(files, SaltFile, password, r);
            && f == files1 && KeepsCryptoFiles(files, f) && KeepsCryptoFiles(files1, f)
            && (verified == Ok(true) && SaltFile in files1 ==> s == Failed(InvalidToken))
  {
    var (verified, files1) := j.crypto.VerifyOutcome(files, password, r.verifyNonce);
    if verified == Ok(true) && SaltFile in files1 {
      DecryptRejectsShort(j.crypto, files1[SaltFile], password);
    }
  }

  /** Inside `create_entry`, the therapy request always gets past the password check and the
      decryption: it analyses exactly the text just saved, and it writes the therapy file only. */
  lemma CreateThenTherapy(j: SecureJournal, files: map<string, seq<byte>>, password: string, e: EntryInputs)
    requires Sound(j.crypto.prims)
    requires j.CreateOutcome(files, password, e).0.Saved?
    ensures var (s, f) := j.CreateOutcome(files, password, e);
            var content := OpenBuffer(e.write, None).value;
            var files1 := j.crypto.VerifyOutcome(files, password, e.verifyNonce).1;
            var files2 := files1[s.entry := j.crypto.Encrypt(content, password, e.nonce)];
            var response := OpenBuffer(e.therapy.review, e.therapy.analyze(content));
            && (response.None? ==> s.therapy == Failed(EditorFailed) && f == files2)
            && (response == Some("") ==> s.therapy == NoResponse && f == files2)
            && (response.Some? && response.value != "" ==>
                  s.therapy == TherapySaved(TherapyName(e.therapy.stamp)) &&
                  f == files2[TherapyName(e.therapy.stamp) :=
                                j.crypto.Encrypt(response.value, password, e.therapy.nonce)])
  {
    var content := OpenBuffer(e.write, None).value;
    var files1 := j.crypto.VerifyOutcome(files, password, e.verifyNonce).1;
    var name := EntryName(e.stamp);
    var files2 := files1[name := j.crypto.Encrypt(content, password, e.nonce)];
    NamesAvoidCryptoFiles(e.stamp);
    if ConfigFile !in files {
      FirstPasswordBinds(j.crypto, files, password, e.verifyNonce, password, e.verifyNonce);
    }
    AcceptedStaysAccepted(j.crypto, files, password, e.verifyNonce, e.therapy.verifyNonce, files2);
    EncryptDecrypt(j.crypto, content, password, e.nonce);
    assert files2[name] == j.crypto.Encrypt(content, password, e.nonce);
  }

  /** An entry `create_entry` saved reads back under the same password: the editor session of
      `read_entry` starts with exactly the saved text, and only the entry is re-encrypted. */
  lemma ReadBackCreatedEntry(j: SecureJournal, files: map<string, seq<byte>>, password: string,
                             e: EntryInputs, r: ReadInputs)
    requires Sound(j.crypto.prims)
    requires |e.therapy.stamp| == |e.stamp|
    requires j.CreateOutcome(files, password, e).0.Saved?
    ensures var f := j.CreateOutcome(files, password, e).1;
            var name := EntryName(e.stamp);
            var content := OpenBuffer(e.write, None).value;
            j.ReadOutcome(f, name, password, r) ==
              match r.edit(content)
              case None => (Failed(EditorFailed), f)
              case Some(out) => (Updated, f[name := j.crypto.Encrypt(Cleanup(out), password, r.nonce)])
  {
    var (s, f) := j.CreateOutcome(files, password, e);
    var content := OpenBuffer(e.write, None).value;
    var name := EntryName(e.stamp);
    var files1 := j.crypto.VerifyOutcome(files, password, e.verifyNonce).1;
    var files2 := files1[name := j.crypto.Encrypt(content, password, e.nonce)];
    CreateThenTherapy(j, files, password, e);
    NamesAvoidCryptoFiles(e.stamp);
    NamesAvoidCryptoFiles(e.therapy.stamp);
    TherapyNameIsNotEntryName(e.therapy.stamp, e.stamp);
    if ConfigFile !in files {
      FirstPasswordBinds(j.crypto, files, password, e.verifyNonce, password, e.verifyNonce);
    }
    assert f[name] == j.crypto.Encrypt(content, password, e.nonce);
    assert f[ConfigFile] == files1[ConfigFile];
    AcceptedStaysAccepted(j.crypto, files, password, e.verifyNonce, r.verifyNonce, f);
    EncryptDecrypt(j.crypto, content, password, e.nonce);
    OpenBufferShowsInitial(r.edit, Some(content));
  }
}

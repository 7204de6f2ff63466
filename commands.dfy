/** The four commands of encrypt.go (`enc`, `dec`, `view`, `edit`) as
    transitions of the secrets file. Each reads the file, consults the
    classifier `IsEncoded`, fetches the deployment's key and nonce, and either
    aborts (`log.Fatal`, leaving the file as it was) or overwrites the file
    with new content. The key-management client and the interactive editor
    are parameters: the result of the fetch, and a function from the edited
    buffer to the editor's result.

    `EncStep`, `DecStep`, `ViewStep` and `EditStep` specify the commands;
    the methods of `SecretsFile` perform them on the file. `enc` and `edit`
    as written discard the error of `encrypt` and write its nil result; that
    behaviour is `EncStepAsWritten` and `EditStepAsWritten`, and the commands
    here abort instead. */
module Commands {
  import opened Types
  import opened Base64
  import opened Gcm
  import opened Envelope

  /** What `newKeyManager()` and `fetchKey(client, Deployment)` deliver. */
  datatype KeyFetch =
    | ClientFailed  // newKeyManager returned an error
    | FetchFailed   // fetchKey returned an error
    | Fetched(keyB64: seq<byte>, nonceB64: seq<byte>)

  /** Fetched key material never makes GCM panic (see `NonceFits`). */
  predicate Fits(fetch: KeyFetch) {
    fetch.Fetched? ==> NonceFits(fetch.keyB64, fetch.nonceB64)
  }

  /** Why a command calls `log.Fatal`. */
  datatype Reason =
    | AlreadyEncrypted        // "content is empty or already encrypted"
    | NotEncrypted            // "not touching unencrypted content"
    | ClientInit              // "could not init client"
    | KeyUnavailable          // "could not fetch key" / "could not get key"
    | DecryptFailed(e: Error) // "decrypt failed"
    | EncryptFailed(e: Error) // the encrypt error that enc and edit as written ignore

  /** A command's effect on the file: abort and leave it, or overwrite it. */
  datatype Step = Abort(reason: Reason) | Write(content: seq<byte>)

  /** The abort for a failed key fetch. */
  function FetchAbort(fetch: KeyFetch): Step
    requires !fetch.Fetched?
  {
    if fetch.ClientFailed? then Abort(ClientInit) else Abort(KeyUnavailable)
  }

  /** `enc`: refuses content the classifier calls encoded (which includes
      empty content), then fetches the key and writes the encryption. */
  function EncStep(a: Aead, fetch: KeyFetch, content: seq<byte>): (s: Step)
    requires Lawful(a) && (!IsEncoded(content) ==> Fits(fetch))
    ensures IsEncoded(content) ==> s == Abort(AlreadyEncrypted)
    ensures s.Write? ==> fetch.Fetched? && IsEncoded(s.content)
  {
    if IsEncoded(content) then Abort(AlreadyEncrypted)
    else if !fetch.Fetched? then FetchAbort(fetch)
    else
      match Encrypted(a, fetch.keyB64, fetch.nonceB64, content)
      case Err(e) => Abort(EncryptFailed(e))
      case Ok(sealed) => Write(sealed)
  }

  /** `enc` as written: the error of `encrypt` is overwritten by that of
      `WriteFile`, so a failed encryption writes its nil result. */
  function EncStepAsWritten(a: Aead, fetch: KeyFetch, content: seq<byte>): (s: Step)
    requires Lawful(a) && (!IsEncoded(content) ==> Fits(fetch))
    ensures IsEncoded(content) ==> s == Abort(AlreadyEncrypted)
    ensures s.Write? ==> fetch.Fetched? && (s.content == [] || IsEncoded(s.content))
  {
    if IsEncoded(content) then Abort(AlreadyEncrypted)
    else if !fetch.Fetched? then FetchAbort(fetch)
    else
      match Encrypted(a, fetch.keyB64, fetch.nonceB64, content)
      case Err(_) => Write([])
      case Ok(sealed) => Write(sealed)
  }

  /** `dec`: refuses content the classifier does not call encoded, then
      fetches the key and writes the decryption. */
  function DecStep(a: Aead, fetch: KeyFetch, content: seq<byte>): (s: Step)
    requires Lawful(a) && (IsEncoded(content) ==> Fits(fetch))
    ensures !IsEncoded(content) ==> s == Abort(NotEncrypted)
    ensures s.Write? ==> fetch.Fetched? && |s.content| + TagSize == |Decode(content).value|
  {
    if !IsEncoded(content) then Abort(NotEncrypted)
    else if !fetch.Fetched? then FetchAbort(fetch)
    else
      match Decrypt(a, fetch.keyB64, fetch.nonceB64, content)
      case Err(e) => Abort(DecryptFailed(e))
      case Ok(plain) => Write(plain)
  }

  /** `view`: what it prints, or why it aborts. It fetches a key only for
      content the classifier calls encoded. */
  function ViewStep(a: Aead, fetch: KeyFetch, content: seq<byte>): (r: Result<seq<byte>, Reason>)
    requires Lawful(a) && (IsEncoded(content) ==> Fits(fetch))
    ensures !IsEncoded(content) ==> r == Ok(content)
    ensures IsEncoded(content) && r.Ok? ==>
      fetch.Fetched? && |r.value| + TagSize == |Decode(content).value|
  {
    if !IsEncoded(content) then Ok(content)
    else if !fetch.Fetched? then Err(FetchAbort(fetch).reason)
    else
      match Decrypt(a, fetch.keyB64, fetch.nonceB64, content)
      case Err(e) => Err(DecryptFailed(e))
      case Ok(plain) => Ok(plain)
  }

  /** The buffer `edit` hands to the editor: the decryption of encoded
      content, other content as it is. */
  function EditBuffer(a: Aead, keyB64: seq<byte>, nonceB64: seq<byte>, content: seq<byte>): Result<seq<byte>, Reason>
    requires Lawful(a) && NonceFits(keyB64, nonceB64)
  {
    if !IsEncoded(content) then Ok(content)
    else
      match Decrypt(a, keyB64, nonceB64, content)
      case Err(e) => Err(DecryptFailed(e))
      case Ok(plain) => Ok(plain)
  }

  /** `edit`: fetches the key before looking at the file, hands the buffer
      to the editor, and writes the encryption of whatever the editor
      returns. */
  function EditStep(a: Aead, fetch: KeyFetch, editor: seq<byte> -> seq<byte>, content: seq<byte>): (s: Step)
    requires Lawful(a) && Fits(fetch)
    ensures !fetch.Fetched? ==> s == FetchAbort(fetch)
    ensures s.Write? ==> IsEncoded(s.content)
  {
    if !fetch.Fetched? then FetchAbort(fetch)
    else
      match EditBuffer(a, fetch.keyB64, fetch.nonceB64, content)
      case Err(why) => Abort(why)
      case Ok(buffer) =>
        match Encrypted(a, fetch.keyB64, fetch.nonceB64, editor(buffer))
        case Err(e) => Abort(EncryptFailed(e))
        case Ok(sealed) => Write(sealed)
  }

  /** `edit` as written: a failed encryption writes its nil result. */
  function EditStepAsWritten(a: Aead, fetch: KeyFetch, editor: seq<byte> -> seq<byte>, content: seq<byte>): (s: Step)
    requires Lawful(a) && Fits(fetch)
    ensures !fetch.Fetched? ==> s == FetchAbort(fetch)
    ensures s.Write? ==> s.content == [] || IsEncoded(s.content)
  {
    if !fetch.Fetched? then FetchAbort(fetch)
    else
      match EditBuffer(a, fetch.keyB64, fetch.nonceB64, content)
      case Err(why) => Abort(why)
      case Ok(buffer) =>
        match Encrypted(a, fetch.keyB64, fetch.nonceB64, editor(buffer))
        case Err(_) => Write([])
        case Ok(sealed) => Write(sealed)
  }

  /** How a command ends: normally, or through `log.Fatal`. */
  datatype Status = Done | Fatal(reason: Reason)

  /** The status and file content after a step: an abort leaves the file
      as it was. */
  function Perform(step: Step, before: seq<byte>): (Status, seq<byte>) {
    match step
    case Abort(why) => (Fatal(why), before)
    case Write(after) => (Done, after)
  }

  /** The secrets file: its content is read at the start of a command and
      overwritten as the command's last action. */
  class SecretsFile {
    var content: seq<byte>

    constructor (initial: seq<byte>)
      ensures content == initial
    {
      content := initial;
    }

    /** The `Run` of `encryptCmd`. */
    method Enc(a: Aead, fetch: KeyFetch) returns (st: Status)
      requires Lawful(a) && (!IsEncoded(content) ==> Fits(fetch))
      modifies this
      ensures (st, content) == Perform(EncStep(a, fetch, old(content)), old(content))
    {
      var data := content;
      if IsEncoded(data) {
        return Fatal(AlreadyEncrypted);
      }
      if fetch.ClientFailed? {
        return Fatal(ClientInit);
      }
      if fetch.FetchFailed? {
        return Fatal(KeyUnavailable);
      }
      var result := Encrypt(a, fetch.keyB64, fetch.nonceB64, data);
      if result.Err? {
        return Fatal(EncryptFailed(result.error));
      }
      content := result.value;
      return Done;
    }

    /** The `Run` of `decryptCmd`. */
    method Dec(a: Aead, fetch: KeyFetch) returns (st: Status)
      requires Lawful(a) && (IsEncoded(content) ==> Fits(fetch))
      modifies this
      ensures (st, content) == Perform(DecStep(a, fetch, old(content)), old(content))
    {
      var data := content;
      if !IsEncoded(data) {
        return Fatal(NotEncrypted);
      }
      if fetch.ClientFailed? {
        return Fatal(ClientInit);
      }
      if fetch.FetchFailed? {
        return Fatal(KeyUnavailable);
      }
      var plain := Decrypt(a, fetch.keyB64, fetch.nonceB64, data);
      if plain.Err? {
        return Fatal(DecryptFailed(plain.error));
      }
      content := plain.value;
      return Done;
    }

    /** The `Run` of `viewCmd`: returns what it prints. It has no right to
        modify the file. */
    method View(a: Aead, fetch: KeyFetch) returns (r: Result<seq<byte>, Reason>)
      requires Lawful(a) && (IsEncoded(content) ==> Fits(fetch))
      ensures r == ViewStep(a, fetch, content)
    {
      var data := content;
      if IsEncoded(data) {
        if fetch.ClientFailed? {
          return Err(ClientInit);
        }
        if fetch.FetchFailed? {
          return Err(KeyUnavailable);
        }
        var plain := Decrypt(a, fetch.keyB64, fetch.nonceB64, data);
        if plain.Err? {
          return Err(DecryptFailed(plain.error));
        }
        data := plain.value;
      }
      return Ok(data);
    }

    /** The `Run` of `editCmd`. */
    method Edit(a: Aead, fetch: KeyFetch, editor: seq<byte> -> seq<byte>) returns (st: Status)
      requires Lawful(a) && Fits(fetch)
      modifies this
      ensures (st, content) == Perform(EditStep(a, fetch, editor, old(content)), old(content))
    {
      if fetch.ClientFailed? {
        return Fatal(ClientInit);
      }
      if fetch.FetchFailed? {
        return Fatal(KeyUnavailable);
      }
      var data := content;
      if IsEncoded(data) {
        var plain := Decrypt(a, fetch.keyB64, fetch.nonceB64, data);
        if plain.Err? {
          return Fatal(DecryptFailed(plain.error));
        }
        data := plain.value;
      }
      var result := editor(data);
      var encrypted := Encrypt(a, fetch.keyB64, fetch.nonceB64, result);
      if encrypted.Err? {
        return Fatal(EncryptFailed(encrypted.error));
      }
      content := encrypted.value;
      return Done;
    }
  }

  // ---------------------------------------------------------------------
  // enc

  /** `enc` never encrypts content the classifier calls encoded. */
  lemma EncRefusesEncoded(a: Aead, fetch: KeyFetch, content: seq<byte>)
    requires Lawful(a) && IsEncoded(content)
    ensures EncStep(a, fetch, content) == Abort(AlreadyEncrypted)
    ensures EncStepAsWritten(a, fetch, content) == Abort(AlreadyEncrypted)
  {
  }

  /** Empty content decodes as Base64, so `enc` refuses it with the same
      message. */
  lemma EncRefusesEmpty(a: Aead, fetch: KeyFetch)
    requires Lawful(a)
    ensures IsEncoded([]) && EncStep(a, fetch, []) == Abort(AlreadyEncrypted)
  {
    EmptyIsEncoded();
  }

  /** Whatever `enc` writes is encoded, came from non-empty plaintext, and
      decrypts with the fetched key and nonce back to that plaintext. */
  lemma EncWriteDecrypts(a: Aead, fetch: KeyFetch, content: seq<byte>, written: seq<byte>)
    requires Lawful(a) && (!IsEncoded(content) ==> Fits(fetch))
    requires EncStep(a, fetch, content) == Write(written)
    ensures !IsEncoded(content) && content != []
    ensures IsEncoded(written) && fetch.Fetched?
    ensures Decrypt(a, fetch.keyB64, fetch.nonceB64, written) == Ok(content)
  {
    EmptyIsEncoded();
    DecryptEncrypted(a, fetch.keyB64, fetch.nonceB64, content);
  }

  /** `enc` never double-encrypts: running it again on what it wrote aborts,
      whatever key the second run would fetch. */
  lemma EncTwiceAborts(a: Aead, fetch: KeyFetch, again: KeyFetch, content: seq<byte>, written: seq<byte>)
    requires Lawful(a) && (!IsEncoded(content) ==> Fits(fetch))
    requires EncStep(a, fetch, content) == Write(written)
    ensures IsEncoded(written) && EncStep(a, again, written) == Abort(AlreadyEncrypted)
  {
  }

  /** With usable key material, `enc` writes the encryption of any content
      the classifier does not call encoded. */
  lemma EncWrites(a: Aead, keyB64: seq<byte>, nonceB64: seq<byte>, content: seq<byte>)
    requires Lawful(a) && Usable(keyB64, nonceB64) && !IsEncoded(content)
    ensures Encrypted(a, keyB64, nonceB64, content).Ok?
    ensures EncStep(a, Fetched(keyB64, nonceB64), content) ==
      Write(Encrypted(a, keyB64, nonceB64, content).value)
  {
    UsableEncrypts(a, keyB64, nonceB64, content);
  }

  /** `dec` undoes `enc`: with the same key material it writes back exactly
      the content `enc` encrypted, and `view` prints that content. */
  lemma DecUndoesEnc(a: Aead, fetch: KeyFetch, content: seq<byte>, written: seq<byte>)
    requires Lawful(a) && (!IsEncoded(content) ==> Fits(fetch))
    requires EncStep(a, fetch, content) == Write(written)
    ensures DecStep(a, fetch, written) == Write(content)
    ensures ViewStep(a, fetch, written) == Ok(content)
  {
    EncWriteDecrypts(a, fetch, content, written);
  }

  // ---------------------------------------------------------------------
  // dec

  /** `dec` never touches content the classifier does not call encoded. */
  lemma DecRefusesPlain(a: Aead, fetch: KeyFetch, content: seq<byte>)
    requires Lawful(a) && !IsEncoded(content)
    ensures DecStep(a, fetch, content) == Abort(NotEncrypted)
  {
  }

  /** `dec` writes a plaintext only when the file held, in Base64, exactly
      the seal of that plaintext under the fetched key and nonce. */
  lemma DecWriteAuthentic(a: Aead, fetch: KeyFetch, content: seq<byte>, plain: seq<byte>)
    requires Lawful(a) && (IsEncoded(content) ==> Fits(fetch))
    requires DecStep(a, fetch, content) == Write(plain)
    ensures fetch.Fetched? && Usable(fetch.keyB64, fetch.nonceB64)
    ensures Decode(content) == Some(Seal(a, Decode(fetch.keyB64).value, Decode(fetch.nonceB64).value, plain))
  {
    DecryptAuthentic(a, fetch.keyB64, fetch.nonceB64, content, plain);
  }

  // ---------------------------------------------------------------------
  // view

  /** `view` prints content the classifier does not call encoded unchanged,
      without fetching a key, and prints the decryption of encoded content. */
  lemma ViewPrints(a: Aead, fetch: KeyFetch, content: seq<byte>, shown: seq<byte>)
    requires Lawful(a) && (IsEncoded(content) ==> Fits(fetch))
    requires ViewStep(a, fetch, content) == Ok(shown)
    ensures !IsEncoded(content) ==> shown == content
    ensures IsEncoded(content) ==>
      fetch.Fetched? && Decrypt(a, fetch.keyB64, fetch.nonceB64, content) == Ok(shown)
  {
  }

  /** `view` and `dec` agree: `view` prints exactly what `dec` would write,
      and fails exactly when `dec` fails for a reason other than the
      content being plaintext. */
  lemma ViewMatchesDec(a: Aead, fetch: KeyFetch, content: seq<byte>)
    requires Lawful(a) && IsEncoded(content) && Fits(fetch)
    ensures ViewStep(a, fetch, content).Ok? <==> DecStep(a, fetch, content).Write?
    ensures ViewStep(a, fetch, content).Ok? ==>
      DecStep(a, fetch, content) == Write(ViewStep(a, fetch, content).value)
    ensures ViewStep(a, fetch, content).Err? ==>
      DecStep(a, fetch, content) == Abort(ViewStep(a, fetch, content).error)
  {
  }

  // ---------------------------------------------------------------------
  // edit

  /** `edit` fetches the key first: without key material it aborts whatever
      the file holds. */
  lemma EditNeedsKeyFirst(a: Aead, fetch: KeyFetch, editor: seq<byte> -> seq<byte>, content: seq<byte>)
    requires Lawful(a) && !fetch.Fetched?
    ensures EditStep(a, fetch, editor, content) == FetchAbort(fetch)
    ensures EditStepAsWritten(a, fetch, editor, content) == FetchAbort(fetch)
  {
  }

  /** Whatever `edit` writes is encoded and decrypts to what the editor
      returned for the buffer: the decryption of encoded content, other
      content unchanged. */
  lemma EditWritesEncrypted(a: Aead, fetch: KeyFetch, editor: seq<byte> -> seq<byte>, content: seq<byte>, written: seq<byte>)
    requires Lawful(a) && Fits(fetch)
    requires EditStep(a, fetch, editor, content) == Write(written)
    ensures fetch.Fetched? && IsEncoded(written)
    ensures !IsEncoded(content) ==>
      Decrypt(a, fetch.keyB64, fetch.nonceB64, written) == Ok(editor(content))
    ensures IsEncoded(content) ==>
      Decrypt(a, fetch.keyB64, fetch.nonceB64, content).Ok? &&
      Decrypt(a, fetch.keyB64, fetch.nonceB64, written) ==
        Ok(editor(Decrypt(a, fetch.keyB64, fetch.nonceB64, content).value))
  {
    var buffer := EditBuffer(a, fetch.keyB64, fetch.nonceB64, content).value;
    DecryptEncrypted(a, fetch.keyB64, fetch.nonceB64, editor(buffer));
  }

  /** `edit` always writes: with usable key material and a file it can
      read, both variants write the encryption of whatever the editor
      returns, changed or not. */
  lemma EditAlwaysWrites(a: Aead, keyB64: seq<byte>, nonceB64: seq<byte>, editor: seq<byte> -> seq<byte>, content: seq<byte>)
    requires Lawful(a) && Usable(keyB64, nonceB64)
    requires EditBuffer(a, keyB64, nonceB64, content).Ok?
    ensures var buffer := EditBuffer(a, keyB64, nonceB64, content).value;
      Encrypted(a, keyB64, nonceB64, editor(buffer)).Ok? &&
      EditStep(a, Fetched(keyB64, nonceB64), editor, content) ==
        Write(Encrypted(a, keyB64, nonceB64, editor(buffer)).value)
    ensures EditStepAsWritten(a, Fetched(keyB64, nonceB64), editor, content) ==
      EditStep(a, Fetched(keyB64, nonceB64), editor, content)
  {
    UsableEncrypts(a, keyB64, nonceB64, editor(EditBuffer(a, keyB64, nonceB64, content).value));
  }

  /** Closing the editor without a change still rewrites the file: for
      plaintext (the buffer is the content) and for encrypted content (the
      buffer is its decryption) alike, the file ends encoded and `dec`
      gives back the buffer. */
  lemma EditUnchangedStillEncrypts(a: Aead, keyB64: seq<byte>, nonceB64: seq<byte>, editor: seq<byte> -> seq<byte>, content: seq<byte>, plain: seq<byte>)
    requires Lawful(a) && Usable(keyB64, nonceB64)
    requires EditBuffer(a, keyB64, nonceB64, content) == Ok(plain) && editor(plain) == plain
    ensures !IsEncoded(content) ==> plain == content
    ensures IsEncoded(content) ==> Decrypt(a, keyB64, nonceB64, content) == Ok(plain)
    ensures EditStep(a, Fetched(keyB64, nonceB64), editor, content).Write?
    ensures var written := EditStep(a, Fetched(keyB64, nonceB64), editor, content).content;
      IsEncoded(written) && DecStep(a, Fetched(keyB64, nonceB64), written) == Write(plain)
  {
    EditAlwaysWrites(a, keyB64, nonceB64, editor, content);
    DecryptEncrypted(a, keyB64, nonceB64, plain);
  }

  /** The editor's error is discarded too (encrypt.go:139-140): an editor
      that fails and returns nothing makes `edit`, corrected or as written,
      seal and write an empty plaintext, so a secrets file that decrypted to
      something non-empty now decrypts to nothing. */
  lemma EditorFailureLosesSecrets(a: Aead, keyB64: seq<byte>, nonceB64: seq<byte>, editor: seq<byte> -> seq<byte>, content: seq<byte>, plain: seq<byte>)
    requires Lawful(a) && Usable(keyB64, nonceB64)
    requires IsEncoded(content) && Decrypt(a, keyB64, nonceB64, content) == Ok(plain) && plain != []
    requires editor(plain) == []
    ensures EditStep(a, Fetched(keyB64, nonceB64), editor, content).Write?
    ensures var written := EditStep(a, Fetched(keyB64, nonceB64), editor, content).content;
      EditStepAsWritten(a, Fetched(keyB64, nonceB64), editor, content) == Write(written) &&
      Decrypt(a, keyB64, nonceB64, written) == Ok([]) && Decrypt(a, keyB64, nonceB64, written) != Ok(plain)
  {
    EditAlwaysWrites(a, keyB64, nonceB64, editor, content);
    DecryptEncrypted(a, keyB64, nonceB64, []);
  }

  // ---------------------------------------------------------------------
  // The discarded encryption error

  /** `enc` as written differs from `enc` only where encryption fails: there
      it writes an empty file instead of aborting. */
  lemma EncAsWrittenDiffersOnlyOnFailure(a: Aead, fetch: KeyFetch, content: seq<byte>)
    requires Lawful(a) && (!IsEncoded(content) ==> Fits(fetch))
    ensures EncStepAsWritten(a, fetch, content) ==
      if EncStep(a, fetch, content).Abort? && EncStep(a, fetch, content).reason.EncryptFailed?
      then Write([]) else EncStep(a, fetch, content)
  {
  }

  /** Counterexample: a plaintext file "h" and a fetched key "!" that is not
      Base64. `enc` as written empties the file; the corrected `enc` aborts
      and leaves it. */
  lemma EncAsWrittenTruncates(a: Aead)
    requires Lawful(a)
    ensures var fetch, plain := Fetched([33], []), [104];
      EncStepAsWritten(a, fetch, plain) == Write([]) &&
      EncStep(a, fetch, plain) == Abort(EncryptFailed(CorruptInput))
  {
    assert Decode([33]) == None;
    assert Decode([104]) == None;
  }

  /** Counterexample: the same plaintext and key under `edit`, whatever the
      editor returns. `edit` as written empties the file; the corrected
      `edit` aborts and leaves it. */
  lemma EditAsWrittenTruncates(a: Aead, editor: seq<byte> -> seq<byte>)
    requires Lawful(a)
    ensures var fetch, plain := Fetched([33], []), [104];
      EditStepAsWritten(a, fetch, editor, plain) == Write([]) &&
      EditStep(a, fetch, editor, plain) == Abort(EncryptFailed(CorruptInput))
  {
    assert Decode([33]) == None;
    assert Decode([104]) == None;
  }

  /** The emptied file is lost: `enc` refuses it as "empty or already
      encrypted", and `dec` with any usable key fails to authenticate it. */
  lemma EmptiedFileIsLost(a: Aead, fetch: KeyFetch)
    requires Lawful(a) && fetch.Fetched? && Usable(fetch.keyB64, fetch.nonceB64)
    ensures EncStep(a, fetch, []) == Abort(AlreadyEncrypted)
    ensures DecStep(a, fetch, []) == Abort(DecryptFailed(AuthFailed))
  {
    EmptyIsEncoded();
    ShortNeverOpens(a, Decode(fetch.keyB64).value, Decode(fetch.nonceB64).value, []);
  }
}

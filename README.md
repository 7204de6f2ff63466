# helm-barbican secrets encryption, modelled in Dafny

This project models the core of `encrypt.go` from helm-barbican. That file
manages one deployment's secrets file in four commands: `enc` encrypts it in
place, `dec` decrypts it in place, `view` prints it decrypted, and `edit`
decrypts it into an editor and writes the encryption of the result back.
The key and nonce come Base64-encoded from a key-management client. The
payload is sealed with AES-GCM and stored as Base64. Whether the file is
"encrypted" is not stored anywhere: `b64Encoded` guesses it from whether
the content decodes as Base64.

Modules, one per component:

- `types.dfy` (`Types`): Go's `byte`, and `Option`/`Result` in place of Go's `(value, err)` pairs.
- `base64.dfy` (`Base64`): Go's `base64.StdEncoding`, meaning padded standard
  Base64 as in section 4 of RFC 4648. It holds the decoder, the declarative
  validity rule `WellFormed`, the classifier `IsEncoded` (`b64Encoded`), the
  encoder `Encode`, and the in-place encoder `EncodeInto` that `encrypt`
  uses on its preallocated buffer.
- `gcm.dfy` (`Gcm`): AES-GCM as an abstract `Aead` (a seal and an open
  function). The predicate `Lawful` holds the laws the code relies on, and
  every user requires it. `LawsAreSatisfiable` shows that such a cipher
  exists, so requiring `Lawful` rules out no cipher. `UsableExists` shows
  that usable key material exists too.
- `envelope.dfy` (`Envelope`): `encrypt` (the function `Encrypted` and the
  method `Encrypt`), `decrypt` (`Decrypt`) and `newKey` (`NewKey`).
- `commands.dfy` (`Commands`): the four `Run` closures. Each one is a pure
  step function (`EncStep`, `DecStep`, `ViewStep`, `EditStep`) and a method
  of the class `SecretsFile`, whose field `content` is the file. `View` has
  no `modifies` clause, so the frame itself proves that it never writes.

Outside collaborators are parameters:

- the key fetch is a `KeyFetch` value: client init failed, fetch failed, or the key and nonce;
- the editor is a function from bytes to bytes;
- the random bytes for `newKey` are `Option<seq<byte>>` draws;
- the cipher is an `Aead`.

`log.Fatal` becomes the status `Fatal(reason)`, and the file is left as it was.

Notes on the code:

- `aes.NewCipher` accepts 16-, 24- and 32-byte keys (encrypt.go:172, 199). There is no check that the key has 32 bytes.
- Empty content is refused by the same check and with the same message as already-encrypted content (encrypt.go:29-31). There is no separate empty-content error.
- A nonce of the wrong length makes GCM's Seal and Open panic. They do not return an error. The model states this as a precondition (`NonceFits`).
- Tampering is stated as authenticity. Open succeeds only on a message that is exactly the seal of the plaintext it returns. A payload whose decoded bytes differ therefore never yields the original plaintext (`TamperedNeverYieldsOriginal`).
- Tamper detection holds for the decoded bytes, not for the stored text. `DecodeString` skips line breaks and ignores the unused low bits of the last symbol before `=`. So some changes to the file's text still decrypt to the original (`NewlineKeepsPlaintext`, `UnusedBitsIgnored`).
- `enc` and `edit` can leave the file empty after a failed encryption (see Findings). The class methods model the corrected behaviour.

## Model

| member | source | states |
|---|---|---|
| `Base64.Value` | encrypt.go:215 | the decoder's symbol table is the inverse of the encoder's: every alphabet symbol maps to a 6-bit value whose symbol it is |
| `Base64.StripNewlines` | encrypt.go:215 | the decoder's view of the input has no `\r` or `\n` left, is no longer than the input, and is the input itself when it had none |
| `Base64.DecodeSkipsNewline` | encrypt.go:215 | a line break anywhere in the input changes neither whether it decodes nor what it decodes to |
| `Base64.TrailingNewline` | encrypt.go:215 | a line break appended to any text gives a different text that decodes exactly as the original |
| `Base64.DecodeQuanta` | encrypt.go:215 | accepted newline-free text is whole quanta, and `n` symbols decode to between `n/4*3 - 2` and `n/4*3` bytes |
| `Base64.Decode` | encrypt.go:215 | `DecodeString` never yields more than `DecodedLen` bytes of its input |
| `Base64.DecodeQuantaSucceedsIff` | encrypt.go:214-220 | the quantum-by-quantum decoder accepts exactly the text that the declarative validity rule calls well formed (alphabet symbols, length a multiple of 4, at most two trailing `=`) |
| `Base64.IsEncoded` | encrypt.go:214-220 | `b64Encoded`: true exactly when `DecodeString` returns no error; content it accepts has a whole number of four-symbol quanta once line breaks are removed |
| `Base64.IsEncodedIff` | encrypt.go:214-220 | `b64Encoded` is true exactly when the content, with line breaks removed, is well-formed padded Base64 |
| `Base64.EmptyIsEncoded` | encrypt.go:29-31 | empty content decodes to no bytes, so the classifier calls it encoded |
| `Base64.UnusedBitsIgnored` | encrypt.go:215 | the non-strict decoder ignores the low four bits of the second symbol of a quantum padded with `==`: texts differing only there ("AA==" and "AB==") decode to the same byte |
| `Base64.Encode` | encrypt.go:181 | an encoding is exactly `EncodedLen(n) = (n+2)/3*4` symbols long |
| `Base64.DecodeEncode` | encrypt.go:182 | round trip: decoding the encoding of any bytes gives back exactly those bytes |
| `Base64.EncodeIsEncoded` | encrypt.go:182 | the classifier calls every encoder output encoded |
| `Base64.EncodeInto` | encrypt.go:181-182 | `Encode` on a buffer preallocated at exactly `EncodedLen` symbols leaves exactly the encoding in it |
| `Gcm.Seal` | encrypt.go:180 | a sealed message is the plaintext's length plus the 16-byte tag and opens back to the plaintext |
| `Gcm.Open` | encrypt.go:207 | Open returns a whole plaintext or a failure, and a plaintext only if the input is exactly its seal |
| `Gcm.ShortNeverOpens` | encrypt.go:207-210 | a message shorter than the tag always fails to open |
| `Gcm.OpenIff` | encrypt.go:207 | opening yields `p` if and only if the message is the seal of `p` |
| `Envelope.Encrypted` | encrypt.go:163-184 | a successful `encrypt` returns valid padded Base64 of length `4*ceil((|payload|+16)/3)` |
| `Envelope.Encrypt` | encrypt.go:163-184 | the method that decodes, seals and encodes into its preallocated buffer returns exactly what `Encrypted` specifies |
| `Envelope.EncryptedFailsIff` | encrypt.go:164-175 | `encrypt` fails exactly when the key or nonce is not Base64 or the key has no AES size, whatever the payload |
| `Envelope.UsableEncrypts` | encrypt.go:172-183 | a key and nonce that decode to an AES key and a 12-byte nonce encrypt every payload |
| `Envelope.Decrypt` | encrypt.go:186-212 | a plaintext comes back only from Base64 payload, and it is 16 bytes shorter than the decoded payload |
| `Envelope.DecryptEncrypted` | encrypt.go:186-212 | round trip: `decrypt(k, n, encrypt(k, n, p)) == p` whenever `encrypt` succeeds |
| `Envelope.DecryptRejectsBadInput` | encrypt.go:187-198 | `decrypt` returns a decoding error and no plaintext when the key, nonce or payload is not Base64 |
| `Envelope.DecryptAuthentic` | encrypt.go:207-211 | a plaintext comes out only when the key material is usable and the payload decodes to exactly its seal |
| `Envelope.TamperedNeverYieldsOriginal` | encrypt.go:186-211 | a payload that decodes differently from an encryption of `p` never decrypts to `p` |
| `Envelope.DrawEncodes` | encrypt.go:161 | the encodings of a 32-byte key and a 12-byte nonce are 44 and 16 symbols long, decode back to those bytes, and together can encrypt |
| `Envelope.NewlineKeepsPlaintext` | encrypt.go:186-211 | the output of `encrypt` with a line break appended is a different text that still decrypts to the original payload |
| `Envelope.UsableExists` | encrypt.go:148-161 | usable key material exists: what `newKey` returns for an all-zero draw is usable |
| `Envelope.NewKey` | encrypt.go:148-161 | succeeds exactly when both random reads do; returns Base64 texts of 44 and 16 symbols that decode to the drawn 32 and 12 bytes and can encrypt |
| `Commands.EncStep` | encrypt.go:24-48 | `enc` (corrected): aborts with "already encrypted" on any content the classifier calls encoded, before looking at the key; anything it writes is encoded and follows a successful fetch |
| `Commands.EncStepAsWritten` | encrypt.go:24-48 | `enc` as written: the same refusal of encoded content, but what it writes is either encoded or, where `encrypt` failed, empty |
| `Commands.DecStep` | encrypt.go:57-81 | `dec`: aborts with "not touching unencrypted content" on content the classifier does not call encoded; anything it writes follows a successful fetch and is 16 bytes shorter than the decoded content |
| `Commands.ViewStep` | encrypt.go:90-110 | `view`: prints content the classifier does not call encoded unchanged; a printed decryption follows a successful fetch and is 16 bytes shorter than the decoded content |
| `Commands.EditStep` | encrypt.go:119-145 | `edit` (corrected): without key material it aborts as the fetch failed, whatever the file holds; anything it writes is encoded |
| `Commands.EditStepAsWritten` | encrypt.go:119-145 | `edit` as written: the same fetch-first abort, but what it writes is either encoded or, where `encrypt` failed, empty |
| `Commands.SecretsFile.Enc` | encrypt.go:24-48 | the file and status after `enc` are those of `EncStep` on the old content: an abort leaves the file, a write replaces it |
| `Commands.SecretsFile.Dec` | encrypt.go:57-81 | the file and status after `dec` are those of `DecStep` on the old content |
| `Commands.SecretsFile.View` | encrypt.go:90-110 | `view` returns what `ViewStep` prints and cannot modify the file |
| `Commands.SecretsFile.Edit` | encrypt.go:119-145 | the file and status after `edit` are those of `EditStep` on the old content |
| `Commands.EncRefusesEncoded` | encrypt.go:29-31 | `enc`, corrected and as written, aborts, file untouched, on any content the classifier calls encoded, whatever key material the client would deliver |
| `Commands.EncRefusesEmpty` | encrypt.go:29-31 | empty content counts as encoded, so `enc` aborts on it with "content is empty or already encrypted", whatever key material the client would deliver |
| `Commands.EncWriteDecrypts` | encrypt.go:42-43 | whatever `enc` writes is encoded, came from non-empty plaintext, and decrypts with the fetched key back to it |
| `Commands.EncTwiceAborts` | encrypt.go:29-43 | `enc` never double-encrypts: a second `enc` on its output aborts, whatever key it fetches |
| `Commands.EncWrites` | encrypt.go:29-47 | with usable key material, `enc` writes exactly the encryption of any content the classifier does not call encoded |
| `Commands.DecUndoesEnc` | encrypt.go:73-77 | with the same key material, `dec` writes back exactly what `enc` encrypted, and `view` prints it |
| `Commands.DecRefusesPlain` | encrypt.go:62-64 | `dec` aborts, file untouched, on content the classifier does not call encoded |
| `Commands.DecWriteAuthentic` | encrypt.go:73-77 | `dec` writes a plaintext only if the file held the Base64 of exactly its seal under the fetched key |
| `Commands.ViewPrints` | encrypt.go:95-109 | `view` prints plaintext content unchanged and encoded content decrypted |
| `Commands.ViewMatchesDec` | encrypt.go:95-107 | on encoded content `view` succeeds exactly when `dec` writes, prints what `dec` would write, and otherwise fails for the same reason |
| `Commands.EditNeedsKeyFirst` | encrypt.go:120-127 | `edit` fetches the key before reading the file: without key material it aborts whatever the file holds |
| `Commands.EditWritesEncrypted` | encrypt.go:128-141 | whatever `edit` writes is encoded and decrypts to the editor's result on the buffer, which is the decryption of encoded content and other content unchanged |
| `Commands.EditAlwaysWrites` | encrypt.go:128-141 | with usable key material and a readable file, both `edit` variants write exactly the encryption of whatever the editor returns for the buffer |
| `Commands.EditUnchangedStillEncrypts` | encrypt.go:138-141 | `edit` rewrites the file even when the editor changes nothing, for plaintext and for encrypted content alike: the file ends encoded and `dec` gives back the unchanged buffer |
| `Commands.EditorFailureLosesSecrets` | encrypt.go:138-141 | the editor's error is discarded: an editor returning nothing makes both `edit` variants seal and write an empty plaintext, so encrypted secrets now decrypt to nothing |
| `Commands.EncAsWrittenDiffersOnlyOnFailure` | encrypt.go:42-43 | `enc` as written differs from the corrected `enc` only where encryption fails, where it writes an empty file |
| `Commands.EncAsWrittenTruncates` | encrypt.go:42-43 | counterexample: plaintext "h" and the key "!" make `enc` as written empty the file, while the corrected `enc` aborts |
| `Commands.EditAsWrittenTruncates` | encrypt.go:139-141 | counterexample: the same input makes `edit` as written empty the file, whatever the editor returns |
| `Commands.EmptiedFileIsLost` | encrypt.go:62-76 | an emptied file cannot be recovered: `enc` refuses it and `dec` fails authentication with any usable key |

## Left out

- File I/O: `ioutil.ReadFile` and `WriteFile` failures, the file mode 0644, and a write that fails halfway. The file is a `seq<byte>` field, and reading and writing it always succeed.
- The cobra command registration (`init`, encrypt.go:222-227) and the command metadata: framework plumbing.
- `fmt.Printf` in `view`: the method returns the bytes it would print.
- `newKeyManager` and `fetchKey`: the external key-management client, modelled as the `KeyFetch` value it delivers. Which deployment is asked for is the client's concern.
- `NewEditor().LaunchTemp`: a function from the buffer to the result. Its temporary-file names are not modelled. Its error, which encrypt.go:139-140 discards, is not a separate outcome. An editor that fails and returns nothing is covered, because the editor is an arbitrary function: `edit` then seals and writes an empty plaintext, and the secrets are lost (`EditorFailureLosesSecrets`).
- AES block and GCM internals: the `Aead` parameter and its laws. `cipher.NewGCM` cannot fail for AES's 16-byte block, so that error path is not modelled.
- `crypto/rand`: `NewKey` takes the random draws as parameters.
- `Base64.EncodeInto`: the library encoder's own loop over groups of three bytes is not modelled; the buffer is filled with the encoding as a whole.
- `Base64.Decode`: `CorruptInputError` is modelled without the byte offset it carries.
- `Envelope.TamperedNeverYieldsOriginal`: only authenticity is stated. A payload whose decoded bytes differ never yields the original plaintext, and anything that opens is a genuine seal. Forgery is not stated to be impossible, because that is a probabilistic security property and not a law of the function.
- `Gcm.Seal`: Go's GCM panics on a plaintext longer than (2^32 - 2) * 16 bytes. This bound is not modelled, and Seal accepts plaintexts of any length.
- `Envelope.Encrypted`: a nonce of the wrong length is a precondition (`NonceFits`), because Go's GCM panics on it instead of returning an error.
- The process exit of `log.Fatal`: the status `Fatal(reason)`, with the file unchanged.

## Findings

| source | as written | input that shows it | evidently intended | confidence | as-written member | corrected member |
|---|---|---|---|---|---|---|
| encrypt.go:42-43 | the error of `encrypt` is overwritten by that of `WriteFile`, so a failed encryption writes the nil result and empties the secrets file | plaintext file "h"; fetched key "!" (not Base64) and any nonce | abort without writing, as every other failure in `enc` does | high; not executed | `Commands.EncAsWrittenTruncates` | `Commands.EncWriteDecrypts` |
| encrypt.go:139-141 | `edit` likewise discards the error of `encrypt` and writes an empty file | plaintext file "h"; fetched key "!"; any editor | abort without writing | high; not executed | `Commands.EditAsWrittenTruncates` | `Commands.EditWritesEncrypted` |

The corrected step functions `EncStep` and `EditStep` abort with
`EncryptFailed`, and the class methods follow them. The as-written
behaviour is kept in `EncStepAsWritten` and `EditStepAsWritten`.
`EmptiedFileIsLost` shows why the truncation matters: empty content counts
as encoded, so `enc` refuses to touch it, and `dec` cannot authenticate it.

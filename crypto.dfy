/**
 * The envelope layer over OpenSSL (crypto namespace of
 * src/localsports/src/security_layer.cpp): key derivation, and the
 * "GCM1:" + base64(nonce 12 bytes ‖ ciphertext ‖ tag 16 bytes) envelope.
 *
 * PBKDF2-HMAC-SHA256, AES-256-GCM and base64 are function-valued fields of a
 * `CryptoLib`; `Lawful` states the laws the theorems rely on. The 12 random
 * bytes from RAND_bytes are a parameter, and so is the set of OpenSSL calls
 * that report failure on a given run.
 */
module Crypto {
  import opened Common

  type Key = k: Bytes | |k| == 32 witness seq(32, _ => 0)
  type Nonce = n: Bytes | |n| == 12 witness seq(12, _ => 0)
  type Tag = t: Bytes | |t| == 16 witness seq(16, _ => 0)

  const NONCE_LEN := 12
  const TAG_LEN := 16
  /** IV(12) + Tag(16): the shortest decoded envelope DecryptFromDB looks into. */
  const MIN_DECODED := 28

  /** "GCM1:" */
  const PREFIX: Bytes := [0x47, 0x43, 0x4d, 0x31, 0x3a]
  /** "[DECRYPT-ERROR]" */
  const DECRYPT_ERROR: Bytes := [0x5b, 0x44, 0x45, 0x43, 0x52, 0x59, 0x50, 0x54, 0x2d, 0x45, 0x52, 0x52, 0x4f, 0x52, 0x5d]

  datatype CryptoLib = CryptoLib(
    /** PKCS5_PBKDF2_HMAC with SHA-256 and a 32-byte output; None when it does not return 1. */
    pbkdf2: (Bytes, Bytes, int) -> Option<Key>,
    /** AES-256-GCM encryption (key, iv, aad, plaintext) to (ciphertext, tag). */
    seal: (Key, Nonce, Bytes, Bytes) -> (Bytes, Tag),
    /** AES-256-GCM decryption (key, iv, aad, ciphertext, tag); None when the tag does not verify. */
    open: (Key, Nonce, Bytes, Bytes, Tag) -> Option<Bytes>,
    /** The base64 BIO chain without newlines, writing. */
    b64Encode: Bytes -> Bytes,
    /** The base64 BIO chain without newlines, reading (a non-positive BIO_read count is the empty result). */
    b64Decode: Bytes -> Bytes
  )

  /** The properties of the primitives the envelope relies on. */
  ghost predicate Lawful(lib: CryptoLib)
  {
    (forall b :: lib.b64Decode(lib.b64Encode(b)) == b)
    && (forall x :: |lib.b64Decode(x)| <= |x|)
    && (forall k, n, a, p :: |lib.seal(k, n, a, p).0| == |p|)
    && (forall k, n, a, p :: lib.open(k, n, a, lib.seal(k, n, a, p).0, lib.seal(k, n, a, p).1) == Some(p))
    && (forall k, n, a, c, t, p :: lib.open(k, n, a, c, t) == Some(p) ==> lib.seal(k, n, a, p) == (c, t))
  }

  /** The OpenSSL calls whose failure the envelope code handles. */
  datatype Call =
    | CtxNew
    | EncryptInit | RandBytes | EncryptInitKeyIv | EncryptUpdateAad | EncryptUpdate | EncryptFinal | GetTag
    | DecryptInit | DecryptUpdateAad | DecryptUpdate | SetTag

  datatype Outcome = Returned(value: Bytes) | Threw(message: string)

  /**
   * DeriveKeyFromPassphrase: a null or empty salt, a null output buffer or
   * fewer than one iteration fail before PBKDF2 is called; otherwise the
   * result is what PBKDF2 gives. None stands for `false`.
   */
  function DeriveKeyFromPassphrase(lib: CryptoLib, passphrase: Bytes, salt: Option<Bytes>, iterations: int,
                                   outPresent: bool): (r: Option<Key>)
    ensures salt.None? || salt.value == [] || !outPresent || iterations < 1 ==> r.None?
    ensures r.Some? ==> r == lib.pbkdf2(passphrase, salt.value, iterations)
    ensures salt.Some? && salt.value != [] && outPresent && iterations >= 1 ==>
              r == lib.pbkdf2(passphrase, salt.value, iterations)
  {
    if salt.None? || |salt.value| == 0 || !outPresent || iterations < 1 then None
    else lib.pbkdf2(passphrase, salt.value, iterations)
  }

  /** The envelope around one sealed message. */
  function Envelope(lib: CryptoLib, nonce: Nonce, ciphertext: Bytes, tag: Tag): Bytes
  {
    PREFIX + lib.b64Encode(nonce + ciphertext + tag)
  }

  /**
   * EncryptForDB: "" for a null key or an empty plaintext, or when no cipher
   * context can be made; the named runtime_error when an OpenSSL step fails
   * (the AAD step only runs for a non-empty aad); otherwise the envelope of a
   * fresh encryption under the RAND_bytes nonce.
   */
  function EncryptForDB(lib: CryptoLib, fails: set<Call>, nonce: Nonce, plaintext: Bytes, key: Option<Key>,
                        aad: Bytes): (r: Outcome)
    ensures key.None? || plaintext == [] ==> r == Returned([])
    ensures r.Returned? && r.value != [] ==>
              key.Some? && plaintext != [] &&
              r.value == Envelope(lib, nonce, lib.seal(key.value, nonce, aad, plaintext).0,
                                  lib.seal(key.value, nonce, aad, plaintext).1)
    ensures r.Threw? ==> key.Some? && plaintext != [] && CtxNew !in fails && EncryptStepFails(fails, aad)
    ensures key.Some? && plaintext != [] && CtxNew in fails ==> r == Returned([])
    ensures key.Some? && plaintext != [] && CtxNew !in fails && EncryptStepFails(fails, aad) ==> r.Threw?
    ensures key.Some? && plaintext != [] && CtxNew !in fails && !EncryptStepFails(fails, aad) ==>
              r == Returned(Envelope(lib, nonce, lib.seal(key.value, nonce, aad, plaintext).0,
                                     lib.seal(key.value, nonce, aad, plaintext).1))
  {
    if key.None? || plaintext == [] then Returned([])
    else if CtxNew in fails then Returned([])
    else if EncryptInit in fails then Threw("EncryptInit failed")
    else if RandBytes in fails then Threw("RAND_bytes failed")
    else if EncryptInitKeyIv in fails then Threw("EncryptInit (key/iv) failed")
    else if aad != [] && EncryptUpdateAad in fails then Threw("EncryptUpdate (AAD) failed")
    else if EncryptUpdate in fails then Threw("EncryptUpdate failed")
    else if EncryptFinal in fails then Threw("EncryptFinal failed")
    else if GetTag in fails then Threw("GET_TAG failed")
    else
      var (ct, tag) := lib.seal(key.value, nonce, aad, plaintext);
      Returned(Envelope(lib, nonce, ct, tag))
  }

  /** Some OpenSSL step after context creation fails on the encrypt path (AAD only when there is one). */
  predicate EncryptStepFails(fails: set<Call>, aad: Bytes)
  {
    EncryptInit in fails || RandBytes in fails || EncryptInitKeyIv in fails || (aad != [] && EncryptUpdateAad in fails)
    || EncryptUpdate in fails || EncryptFinal in fails || GetTag in fails
  }

  /** Some OpenSSL step after context creation fails on the decrypt path (AAD only when there is one). */
  predicate DecryptStepFails(fails: set<Call>, aad: Bytes)
  {
    DecryptInit in fails || (aad != [] && DecryptUpdateAad in fails) || DecryptUpdate in fails || SetTag in fails
  }

  /** AES-GCM opening of decoded bytes: nonce first, tag last, ciphertext between. */
  function OpenDecoded(lib: CryptoLib, key: Key, d: Bytes, aad: Bytes): Option<Bytes>
    requires |d| >= MIN_DECODED
  {
    lib.open(key, d[..NONCE_LEN], aad, d[NONCE_LEN..|d| - TAG_LEN], d[|d| - TAG_LEN..])
  }

  /** The three kinds of result DecryptFromDB distinguishes. */
  datatype Opened = Rejected | Failed | Plain(plaintext: Bytes)

  predicate HasPrefix(s: Bytes)
  {
    |s| >= 5 && s[..5] == PREFIX
  }

  /** The bytes BIO_read leaves in a buffer of |body| bytes. */
  function Decoded(lib: CryptoLib, body: Bytes): Bytes
  {
    var d := lib.b64Decode(body);
    if |d| <= |body| then d else d[..|body|]
  }

  /**
   * DecryptFromDB's case analysis: Rejected ("") for a missing prefix, a null
   * key, fewer than 28 decoded bytes or no cipher context; Failed
   * ("[DECRYPT-ERROR]") when an OpenSSL step fails or the tag does not verify;
   * otherwise the plaintext. The nonce is the first 12 decoded bytes, the tag
   * the last 16 and the ciphertext everything between.
   */
  function OpenEnvelope(lib: CryptoLib, fails: set<Call>, sealed: Bytes, key: Option<Key>, aad: Bytes): (r: Opened)
    ensures !HasPrefix(sealed) || key.None? ==> r == Rejected
    ensures HasPrefix(sealed) && |Decoded(lib, sealed[5..])| < MIN_DECODED ==> r == Rejected
    ensures r.Plain? ==>
              var d := Decoded(lib, sealed[5..]);
              key.Some? && |d| >= MIN_DECODED &&
              lib.open(key.value, d[..NONCE_LEN], aad, d[NONCE_LEN..|d| - TAG_LEN], d[|d| - TAG_LEN..]) == Some(r.plaintext)
    ensures HasPrefix(sealed) && key.Some? && |Decoded(lib, sealed[5..])| >= MIN_DECODED ==>
              var d := Decoded(lib, sealed[5..]);
              (CtxNew in fails ==> r == Rejected) &&
              (CtxNew !in fails && (DecryptStepFails(fails, aad) || OpenDecoded(lib, key.value, d, aad).None?) ==>
                 r == Failed) &&
              (CtxNew !in fails && !DecryptStepFails(fails, aad) && OpenDecoded(lib, key.value, d, aad).Some? ==>
                 r == Plain(OpenDecoded(lib, key.value, d, aad).value))
  {
    if !HasPrefix(sealed) || key.None? then Rejected
    else
      var d := Decoded(lib, sealed[5..]);
      if |d| < MIN_DECODED then Rejected
      else if CtxNew in fails then Rejected
      else
        var iv: Nonce := d[..NONCE_LEN];
        var ct := d[NONCE_LEN..|d| - TAG_LEN];
        var tag: Tag := d[|d| - TAG_LEN..];
        if DecryptStepFails(fails, aad) then Failed
        else match lib.open(key.value, iv, aad, ct, tag)
          case None => Failed
          case Some(p) => Plain(p)
  }

  /** DecryptFromDB: the case analysis rendered as the returned string. */
  function DecryptFromDB(lib: CryptoLib, fails: set<Call>, sealed: Bytes, key: Option<Key>, aad: Bytes): (r: Bytes)
    ensures OpenEnvelope(lib, fails, sealed, key, aad) == Rejected ==> r == []
    ensures OpenEnvelope(lib, fails, sealed, key, aad) == Failed ==> r == DECRYPT_ERROR
    ensures OpenEnvelope(lib, fails, sealed, key, aad).Plain? ==> r == OpenEnvelope(lib, fails, sealed, key, aad).plaintext
  {
    match OpenEnvelope(lib, fails, sealed, key, aad)
    case Rejected => []
    case Failed => DECRYPT_ERROR
    case Plain(p) => p
  }

  /** No call of the decrypt path fails. */
  predicate DecryptCallsSucceed(fails: set<Call>)
  {
    CtxNew !in fails && DecryptInit !in fails && DecryptUpdateAad !in fails && DecryptUpdate !in fails && SetTag !in fails
  }

  predicate EncryptCallsSucceed(fails: set<Call>)
  {
    CtxNew !in fails && EncryptInit !in fails && RandBytes !in fails && EncryptInitKeyIv !in fails
    && EncryptUpdateAad !in fails && EncryptUpdate !in fails && EncryptFinal !in fails && GetTag !in fails
  }

  /**
   * An envelope whose tag does not verify (a changed byte, another key or
   * another aad) decrypts to the error sentinel, not to "" or to a plaintext.
   */
  lemma UnverifiedTagGivesSentinel(lib: CryptoLib, fails: set<Call>, sealed: Bytes, key: Key, aad: Bytes)
    requires DecryptCallsSucceed(fails) && HasPrefix(sealed) && |Decoded(lib, sealed[5..])| >= MIN_DECODED
    requires OpenDecoded(lib, key, Decoded(lib, sealed[5..]), aad).None?
    ensures DecryptFromDB(lib, fails, sealed, Some(key), aad) == DECRYPT_ERROR
  {
  }

  /** An envelope splits back into its nonce, ciphertext and tag. */
  lemma EnvelopeSplits(lib: CryptoLib, nonce: Nonce, ct: Bytes, tag: Tag)
    requires Lawful(lib)
    ensures var e := Envelope(lib, nonce, ct, tag);
            var d := Decoded(lib, e[5..]);
            HasPrefix(e) && d == nonce + ct + tag && |d| == NONCE_LEN + |ct| + TAG_LEN &&
            d[..NONCE_LEN] == nonce && d[NONCE_LEN..|d| - TAG_LEN] == ct && d[|d| - TAG_LEN..] == tag
  {
    var body := lib.b64Encode(nonce + ct + tag);
    var e := PREFIX + body;
    assert e[..5] == PREFIX;
    assert e[5..] == body;
    assert lib.b64Decode(body) == nonce + ct + tag;
    var d := nonce + ct + tag;
    assert d[..NONCE_LEN] == nonce;
    assert d[NONCE_LEN..|d| - TAG_LEN] == ct;
    assert d[|d| - TAG_LEN..] == tag;
  }

  /**
   * Decrypting an encryption under the same key and aad gives back the
   * plaintext, whatever nonce was drawn.
   */
  lemma EncryptDecryptRoundTrip(lib: CryptoLib, efails: set<Call>, dfails: set<Call>, nonce: Nonce,
                                plaintext: Bytes, key: Key, aad: Bytes)
    requires Lawful(lib) && EncryptCallsSucceed(efails) && DecryptCallsSucceed(dfails)
    requires plaintext != []
    ensures EncryptForDB(lib, efails, nonce, plaintext, Some(key), aad).Returned?
    ensures DecryptFromDB(lib, dfails, EncryptForDB(lib, efails, nonce, plaintext, Some(key), aad).value, Some(key), aad)
            == plaintext
  {
    var (ct, tag) := lib.seal(key, nonce, aad, plaintext);
    EnvelopeSplits(lib, nonce, ct, tag);
    assert EncryptForDB(lib, efails, nonce, plaintext, Some(key), aad) == Returned(Envelope(lib, nonce, ct, tag));
  }

  /** Envelopes made with different nonces differ (base64 decoding recovers the nonce). */
  lemma DistinctNoncesDistinctEnvelopes(lib: CryptoLib, n1: Nonce, n2: Nonce, c1: Bytes, c2: Bytes, t1: Tag, t2: Tag)
    requires Lawful(lib) && n1 != n2
    ensures Envelope(lib, n1, c1, t1) != Envelope(lib, n2, c2, t2)
  {
    EnvelopeSplits(lib, n1, c1, t1);
    EnvelopeSplits(lib, n2, c2, t2);
  }

  /**
   * A plaintext comes back only from a message that is exactly nonce ‖ seal of
   * that plaintext under this key, nonce and aad: a changed byte or a
   * different aad cannot yield a plaintext.
   */
  lemma AcceptedOnlyIfSealed(lib: CryptoLib, fails: set<Call>, sealed: Bytes, key: Key, aad: Bytes)
    requires Lawful(lib)
    requires OpenEnvelope(lib, fails, sealed, Some(key), aad).Plain?
    ensures var d := Decoded(lib, sealed[5..]);
            var p := OpenEnvelope(lib, fails, sealed, Some(key), aad).plaintext;
            var n: Nonce := d[..NONCE_LEN];
            d == n + lib.seal(key, n, aad, p).0 + lib.seal(key, n, aad, p).1
  {
    var d := Decoded(lib, sealed[5..]);
    assert d == d[..NONCE_LEN] + d[NONCE_LEN..|d| - TAG_LEN] + d[|d| - TAG_LEN..];
  }

  /**
   * The error sentinel is an ordinary string: a stored encryption of
   * "[DECRYPT-ERROR]" decrypts to the same value a failed decryption returns.
   */
  lemma SentinelIsAmbiguous(lib: CryptoLib, efails: set<Call>, dfails: set<Call>, nonce: Nonce, key: Key, aad: Bytes)
    requires Lawful(lib) && EncryptCallsSucceed(efails) && DecryptCallsSucceed(dfails)
    ensures DecryptFromDB(lib, dfails, EncryptForDB(lib, efails, nonce, DECRYPT_ERROR, Some(key), aad).value, Some(key), aad)
            == DECRYPT_ERROR
  {
    EncryptDecryptRoundTrip(lib, efails, dfails, nonce, DECRYPT_ERROR, key, aad);
  }
}

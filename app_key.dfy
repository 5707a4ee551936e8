/**
 * The application key singleton (`g_appKey`, `g_appKeyInitialized` in
 * src/localsports/src/security_layer.cpp): a two-state machine, uninitialised
 * with an empty key buffer, or ready with a 32-byte derived key.
 *
 * The LS_APP_PASSPHRASE environment value and the line typed at the hidden
 * password prompt are parameters.
 */
module AppKeys {
  import opened Common
  import opened SecureBuffers
  import opened Crypto

  /** "LS_APP_SALT_2025" */
  const SALT: Bytes := [0x4c, 0x53, 0x5f, 0x41, 0x50, 0x50, 0x5f, 0x53, 0x41, 0x4c, 0x54, 0x5f, 0x32, 0x30, 0x32, 0x35]
  const ITERATIONS := 100000
  const KEY_LEN := 32

  datatype KeyAccess = Ready(buffer: SecureBuffer) | NotInitialized(message: string)

  /** The passphrase the initialisation uses: the environment value, or the typed one when that is unset or empty. */
  function Passphrase(envVal: Option<Bytes>, typed: Bytes): (r: Bytes)
    ensures envVal.Some? && envVal.value != [] ==> r == envVal.value
    ensures !(envVal.Some? && envVal.value != []) ==> r == typed
  {
    if envVal.Some? && envVal.value != [] then envVal.value else typed
  }

  class AppKey {
    const key: SecureBuffer
    var initialized: bool

    /** Ready exactly when the buffer holds 32 bytes; otherwise it is empty. */
    ghost predicate Valid()
      reads this, key
    {
      key.Valid() && (initialized ==> key.size == KEY_LEN) && (!initialized ==> key.size == 0)
    }

    /** The program's start: an empty key buffer, not initialised. */
    constructor ()
      ensures Valid() && !initialized
      ensures fresh(key)
    {
      key := new SecureBuffer(0);
      initialized := false;
    }

    /**
     * AppKey_InitFromEnvOrPrompt: true at once when already ready. Otherwise an
     * empty passphrase fails; the key is derived with the fixed salt and 100000
     * iterations into a 32-byte buffer, and a failed derivation zeroes and
     * empties the buffer and stays uninitialised.
     */
    method InitFromEnvOrPrompt(lib: CryptoLib, envVal: Option<Bytes>, typed: Bytes) returns (ok: bool)
      requires Valid()
      modifies this, key, key.data
      ensures Valid()
      ensures old(initialized) ==> ok && initialized && key.data == old(key.data) && key.Contents() == old(key.Contents())
      ensures !old(initialized) ==>
                var pass := Passphrase(envVal, typed);
                var derived := lib.pbkdf2(pass, SALT, ITERATIONS);
                (ok <==> pass != [] && derived.Some?) &&
                initialized == ok &&
                (ok ==> key.Contents() == derived.value)
    {
      if initialized {
        return true;
      }
      var passphrase: Bytes := [];
      if envVal.Some? {
        passphrase := envVal.value;
      }
      if passphrase == [] {
        passphrase := typed;
        if passphrase == [] {
          return false;
        }
      }
      key.Resize(KEY_LEN);
      var derived := DeriveKeyFromPassphrase(lib, passphrase, Some(SALT), ITERATIONS, key.data != null);
      if derived.None? {
        key.Cleanse();
        key.Resize(0);
        return false;
      }
      var k := derived.value;
      var out := key.data;
      forall i | 0 <= i < KEY_LEN {
        out[i] := k[i];
      }
      assert key.Contents() == k;
      initialized := true;
      ok := true;
    }

    /** AppKey_Get: the key buffer, or the runtime_error raised before initialisation. */
    function Get(): (r: KeyAccess)
      reads this
      ensures r.Ready? <==> initialized
      ensures r.Ready? ==> r.buffer == key
    {
      if initialized then Ready(key)
      else NotInitialized("AppKey not initialized. Call AppKey_InitFromEnvOrPrompt() first.")
    }

    /** AppKey_IsReady: whether a key has been derived, that is whether Get hands out the buffer. */
    function IsReady(): (r: bool)
      reads this, key
      ensures r <==> Get().Ready?
      ensures Valid() ==> (r <==> key.size == KEY_LEN)
    {
      initialized
    }
  }
}

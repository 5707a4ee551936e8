# LocalSports security core in Dafny

LocalSports is a small team manager for an amateur sports club: players, games, per-game statistics, and user accounts, all kept in binary record files. A runtime security layer embedded in the executable surrounds it. This project models four parts of that program and proves what each promises:

- **Secret storage and at-rest encryption** (`security_layer.cpp`).
  - `SecureBuffer` is a byte region that is always zeroed before it is released. The model has zero-filling construction, `cleanse`, `resize`, move-construct, move-assign and destruction.
  - `secure_bzero` is a byte-by-byte zeroing loop.
  - `DeriveKeyFromPassphrase` has argument guards in front of PBKDF2.
  - The `"GCM1:"` + base64(nonce 12 ‖ ciphertext ‖ tag 16) envelope of `EncryptForDB`/`DecryptFromDB` distinguishes an empty result from the `"[DECRYPT-ERROR]"` result.
  - The application key is a singleton that is either uninitialised or ready.
- **The RASP controller** (`rasp.cpp`, Runtime Application Self-Protection).
  - The append-only security event log.
  - The boot-time and scan-time integrity verdict, and the search for the `.text` section of the running ELF image and its SHA-256 hex digest.
  - Critical-event handling and the fail-closed shutdown.
  - The lifecycle flags (active, monitor running, configuration snapshot), driven by `InitializeRASP`, `ShutdownRASP` and `PerformSecurityScan`.
- **The hardening transforms** (`security_hardening.cpp`).
  - XOR string and value masking.
  - Carry-loop addition and shift-and-add multiplication on 32-bit `int`.
  - Boolean re-encoding and the "opaque" square predicate.
  - The `VerifyIntegrity` rule and the anti-debug monitor flag.
- **The record tables** (`localsports.cpp`).
  - FNV-1a-64 password hashes and `nextId`.
  - `copyTo` truncation and the `readInt` acceptance rule.
  - Seeding of the admin account.
  - Login, registration and logout.
  - Adding, editing and soft-deleting players; adding games and recording results and stats.
  - Per-player totals ordered by goals.

## Modelling choices

**Files and modules.**

| file | module | what it holds |
|---|---|---|
| `common.dfy` | `Common` | Byte strings, `Option`, 32-bit two's-complement patterns (`Signed`/`Wrap`), the C-string view of a byte array (`CString`) |
| `secure_buffer.dfy` | `SecureBuffers` | Class `SecureBuffer` over an `array?<byte>` |
| `crypto.dfy` | `Crypto` | The envelope functions |
| `app_key.dfy` | `AppKeys` | Class `AppKey` |
| `hardening.dfy` | `Hardening` | The hardening transforms |
| `elf.dfy` | `Elf` | The section search and hex encoding |
| `rasp.dfy` | `Rasp` | Class `Engine`, holding the controller's global state |
| `localsports.dfy` | `LocalSports` | Pure rules and class `TeamStore`, holding the four tables and the session |

**Foreign calls are parameters.** OpenSSL's PBKDF2-HMAC-SHA256, AES-256-GCM and base64 BIOs form a record of functions, `Crypto.CryptoLib`, passed as a parameter; SHA-256 is the `sha256` oracle of `Rasp.Host`. The laws the crypto theorems rely on form a predicate, `Crypto.Lawful`:
- base64 decoding inverts encoding;
- base64 decoding never yields more bytes than its input has;
- GCM sealing yields a ciphertext as long as the plaintext;
- GCM opening inverts sealing under the same key, nonce and aad;
- GCM opening yields a plaintext only for the ciphertext and tag that sealing that plaintext gives (tags are unforgeable), the law `Crypto.AcceptedOnlyIfSealed` rests on.

The same approach covers every other dependency:
- the random nonce;
- the set of OpenSSL calls that fail on a run;
- the executable image;
- the debugger probe and the hook counts;
- whether the log file opens;
- the values the console prompts return.

**`std::exit` is a terminal flag.** The fail-closed path sets `Rasp.Engine.exited`, and an operation that sets it does nothing afterwards.

**Integer widths are explicit.**
- A C `int` is its 32-bit pattern (`u32`); `Signed` reads it back.
- `uint64_t` hashes and masks are `bv64`.
- `nextId` wraps modulo 2^32.

**Input loops are methods.** The two loops that read the console (`readInt`'s re-prompt loop and the registration name loop) are methods over a `LocalSports.Console` that holds the remaining input lines. At end of input, `readLine` yields the empty line and `readInt` yields 0.

## Model

| member | source | states |
|---|---|---|
| SecureBuffers.SecureBZero | src/localsports/src/security_layer.cpp:37-52 | The first `len` bytes become 0, the rest of the array is unchanged; a null pointer or zero length changes nothing |
| SecureBuffers.SecureBuffer.constructor | src/localsports/src/security_layer.cpp:54-60 | Exactly `n` bytes, all zero, in fresh storage; for `n == 0`, size 0 and null storage |
| SecureBuffers.SecureBuffer.MoveFrom | src/localsports/src/security_layer.cpp:62-66 | The new buffer owns the source's storage, size and bytes; the source is left with size 0 and null storage |
| SecureBuffers.SecureBuffer.MoveAssign | src/localsports/src/security_layer.cpp:68-78 | For another buffer: the destination's old storage is all zero after the move, the destination gets the source's storage, size and bytes, and the source is emptied; self-assignment changes nothing |
| SecureBuffers.SecureBuffer.Dispose | src/localsports/src/security_layer.cpp:80-83 | The released storage is all zero, and the buffer is left empty |
| SecureBuffers.SecureBuffer.Resize | src/localsports/src/security_layer.cpp:85-108 | Resizing to the current size keeps storage and bytes. Otherwise: the first min(old, new) bytes are kept, every new tail byte is 0, the old storage is zeroed before release, new storage is fresh, and size 0 means null storage |
| SecureBuffers.SecureBuffer.Cleanse | src/localsports/src/security_layer.cpp:110-113 | Every byte becomes 0; size and storage stay |
| SecureBuffers.SecureBuffer.Contents | src/localsports/src/security_layer.cpp:54-60 | The bytes held number exactly `size` |
| Crypto.DeriveKeyFromPassphrase | src/localsports/src/security_layer.cpp:118-136 | Null salt, zero salt length, null output or iterations < 1 fail without deriving. Otherwise the result is exactly PBKDF2's result for these inputs, success or failure |
| Crypto.EncryptForDB | src/localsports/src/security_layer.cpp:138-214 | A null key or empty plaintext gives `""`. A non-empty result is `"GCM1:"` + base64(nonce ‖ ciphertext ‖ tag) of the GCM seal of this plaintext under this key, nonce and aad. A failed context allocation gives `""`. After it, an exception is raised exactly when one of the OpenSSL steps fails (the AAD step only for a non-empty aad); when none fails the result is that envelope |
| Crypto.OpenEnvelope | src/localsports/src/security_layer.cpp:221-275 | A missing prefix, a null key or a decoded body shorter than 28 bytes is rejected. A failed context allocation is rejected too. Past these checks, a failing OpenSSL step or a tag that does not verify gives a decryption failure, and a verified GCM opening of (first 12 bytes, middle, last 16 bytes) gives its plaintext; a plaintext is returned only in that case |
| Crypto.DecryptFromDB | src/localsports/src/security_layer.cpp:216-279 | A rejected envelope gives `""`, a cipher or tag failure gives `"[DECRYPT-ERROR]"`, and success gives the opened plaintext |
| Crypto.UnverifiedTagGivesSentinel | src/localsports/src/security_layer.cpp:264-274 | A well-formed envelope whose tag does not verify under this key and aad, with every OpenSSL call succeeding, decrypts to `"[DECRYPT-ERROR]"` |
| Crypto.EnvelopeSplits | src/localsports/src/security_layer.cpp:190-210 | An envelope carries the prefix, and its decoded body splits back into exactly the nonce, ciphertext and tag it was built from |
| Crypto.EncryptDecryptRoundTrip | src/localsports/src/security_layer.cpp:138-279 | When no OpenSSL call fails, decrypting the encryption of a non-empty plaintext under the same key and aad returns the plaintext, for every nonce |
| Crypto.DistinctNoncesDistinctEnvelopes | src/localsports/src/security_layer.cpp:190-210 | Envelopes made with different nonces are different strings |
| Crypto.AcceptedOnlyIfSealed | src/localsports/src/security_layer.cpp:234-270 | A plaintext comes back only from a body that is exactly nonce ‖ the GCM seal of that plaintext under this key, nonce and aad |
| Crypto.SentinelIsAmbiguous | src/localsports/src/security_layer.cpp:272-275 | A stored encryption of the text `"[DECRYPT-ERROR]"` decrypts to the same value a failed decryption returns |
| AppKeys.Passphrase | src/localsports/src/security_layer.cpp:336-344 | The environment value when it is set and non-empty; otherwise the typed line |
| AppKeys.AppKey.constructor | src/localsports/src/security_layer.cpp:292-293 | The program starts uninitialised, with an empty key buffer |
| AppKeys.AppKey.InitFromEnvOrPrompt | src/localsports/src/security_layer.cpp:331-361 | Already ready: true, with the key untouched. Otherwise it succeeds exactly when the passphrase is non-empty and PBKDF2 with salt "LS_APP_SALT_2025" and 100000 iterations succeeds; then the key is those 32 bytes and the state is ready. On failure it stays uninitialised with an empty buffer |
| AppKeys.AppKey.Get | src/localsports/src/security_layer.cpp:363-367 | The key buffer exactly when initialised, otherwise the not-initialised error |
| AppKeys.AppKey.IsReady | src/localsports/src/security_layer.cpp:369-371 | True exactly when `Get` hands out the key buffer; in a valid state, exactly when the buffer holds 32 bytes |
| Hardening.MaskedInvolution | src/localsports/src/security_hardening.cpp:355-369 | XOR masking with 0xAA applied twice is the identity |
| Hardening.MaskedChangesNonEmpty | src/localsports/src/security_hardening.cpp:355-361 | Masking changes every non-empty string |
| Hardening.ObfuscateString | src/localsports/src/security_hardening.cpp:355-361 | The result is the C string up to its first NUL, with each byte XORed with 0xAA; length is preserved |
| Hardening.DeobfuscateString | src/localsports/src/security_hardening.cpp:363-369 | Each byte of the whole input XORed with 0xAA |
| Hardening.StringRoundTrip | src/localsports/src/security_hardening.cpp:355-369 | Deobfuscating an obfuscated string gives back its C string, and the whole input when it has no NUL (the empty string included) |
| Hardening.ObfuscateValue | src/localsports/src/security_hardening.cpp:371-373 | The masked value differs from the input, and unmasking recovers it |
| Hardening.DeobfuscateValue | src/localsports/src/security_hardening.cpp:375-377 | The unmasked value differs from the input and differs from it by exactly the fixed mask |
| Hardening.ValueRoundTrip | src/localsports/src/security_hardening.cpp:371-377 | Masking and unmasking with 0x5A5A5A5A5A5A5A5A are mutually inverse for every 64-bit value |
| Hardening.ObfuscateBooleanCondition | src/localsports/src/security_hardening.cpp:413-420 | The re-encoded condition equals the input |
| Hardening.OpaqueMathPredicate | src/localsports/src/security_hardening.cpp:348-352 | True whenever -46340 <= x <= 46340, so the 32-bit square fits |
| Hardening.OpaqueMathPredicateOverflows | src/localsports/header/security_hardening.h:81 | The predicate documented as always true is false for 46341 and -46341 |
| Hardening.OpaqueMathPredicateWide | src/localsports/header/security_hardening.h:81 | With the square taken in 64 bits the predicate holds for every 32-bit input |
| Hardening.CarryIdentity | src/localsports/src/security_hardening.cpp:446-453 | x ^ y plus twice x & y equals x + y, the identity each carry round keeps |
| Hardening.ObfuscateAdd | src/localsports/src/security_hardening.cpp:444-456 | The carry loop terminates and returns a + b modulo 2^32 |
| Hardening.ObfuscateMultiply | src/localsports/src/security_hardening.cpp:458-473 | For a multiplicand >= 0, the 32-bit wrapping product; for a negative multiplicand, 0 |
| Hardening.ObfuscateMultiplyNegativeExample | src/localsports/src/security_hardening.cpp:464 | 5 times -6 yields 0, not -30 |
| Hardening.ObfuscateMultiplyUnsigned | src/localsports/src/security_hardening.cpp:458-473 | The loop run over the unsigned pattern returns the 32-bit wrapping product for all inputs |
| Hardening.VerifyIntegrity | src/localsports/src/security_hardening.cpp:195-202 | An empty expected hash passes; otherwise it passes exactly when the current hash equals it |
| Hardening.AntiDebugMonitor.Start | src/localsports/src/security_hardening.cpp:127-141 | The flag is set, and a monitor thread is started only when it was clear |
| Hardening.AntiDebugMonitor.Stop | src/localsports/src/security_hardening.cpp:143-148 | The flag is cleared and no thread is started |
| Elf.SearchText | src/localsports/src/rasp.cpp:280-293 | A found section is one of the first `e_shnum` headers, read at that index; the loop reads each header's `sh_name` only, and `sh_offset`/`sh_size` of the hit alone |
| Elf.SearchFindsFirst | src/localsports/src/rasp.cpp:280-293 | A found section is named exactly ".text", and every earlier header is readable and named otherwise |
| Elf.SearchFindsText | src/localsports/src/rasp.cpp:280-293 | The first header named ".text", after headers all readable and named otherwise, is the one found; an unreadable name in its place, or a hit whose `sh_offset`/`sh_size` lie outside the image, makes the search fail |
| Elf.FirstHitStops | src/localsports/src/rasp.cpp:280-293 | The header loop stops at the first header that is unreadable or named ".text" |
| Elf.SearchNoText | src/localsports/src/rasp.cpp:280-295 | When every header is readable and none is named ".text", the search finds nothing |
| Elf.NameIsTextExactly | src/localsports/src/rasp.cpp:281 | The `strcmp` test holds exactly when the six bytes ".text\0" lie at the name offset |
| Elf.FindTextSection | src/localsports/src/rasp.cpp:280-293 | The loop over section headers computes the search |
| Elf.ReadLayout | src/localsports/src/rasp.cpp:276-277 | Readable exactly when the file header and the 8-byte `sh_offset` of header `e_shstrndx` lie in the image (no other field of that header is read); the layout is `e_shoff`, `e_shnum` and that offset |
| Elf.TextSection | src/localsports/src/rasp.cpp:255-296 | No ELF magic means no section. A section is returned only for a readable layout and a found `.text` header whose bytes lie in the image, and it is exactly bytes [sh_offset, sh_offset + sh_size). Conversely, a readable layout and a found header whose bytes lie in the image give exactly those bytes |
| Elf.HexShape | src/localsports/src/rasp.cpp:83-90 | The hex string has two lowercase hex digits per byte |
| Elf.HexRoundTrip | src/localsports/src/rasp.cpp:83-90 | Decoding the hex string gives back the bytes |
| Elf.BytesToHex | src/localsports/src/rasp.cpp:83-90 | The loop computes the hex encoding: 2·len lowercase hex digits |
| Elf.DigestHexLength | src/localsports/src/rasp.cpp:286-292 | A SHA-256 digest encodes to 64 hex digits |
| Elf.TextChecksum | src/localsports/src/rasp.cpp:255-296 | Non-empty exactly when the image is readable and has a `.text` section; a non-empty checksum is 64 hex digits and is the hex of the SHA-256 of the `.text` bytes |
| Elf.CalculateTextSectionChecksum | src/localsports/src/rasp.cpp:255-296 | The computation produces the text checksum of the image |
| Rasp.IntegrityEventsReportVerdict | src/localsports/src/rasp.cpp:299-367 | An empty expected checksum logs nothing. Otherwise exactly one event is logged: severity 3 exactly when the verdict fails, severity 1 exactly when it passes |
| Rasp.VerdictAgreesWithHardening | src/localsports/src/rasp.cpp:299-367 | The RASP integrity verdict is the hardening layer's `VerifyIntegrity` rule |
| Rasp.VerdictMeansDigest | src/localsports/src/rasp.cpp:299-367 | A passing check against a non-empty expected value means the image has a `.text` section and the expected value is the 64-digit hex of its SHA-256 |
| Rasp.ScanPassesIffQuiet | src/localsports/src/rasp.cpp:698-731 | The scan passes exactly when every event it logs is informational |
| Rasp.ScanDecomposes | src/localsports/src/rasp.cpp:704-730 | When the debugger step does not terminate, the scan's verdict, exit and events are the debugger step followed by the integrity and hook steps |
| Rasp.Engine.constructor | src/localsports/src/rasp.cpp:47-53 | Inactive, not monitoring, default configuration, no expected checksum, empty log |
| Rasp.Engine.LogSecurityEvent | src/localsports/src/rasp.cpp:508-526 | The event is appended at the end of the log whether or not the file opens; the result is whether it opened |
| Rasp.Engine.ClearSecurityLog | src/localsports/src/rasp.cpp:554-560 | The in-memory log becomes empty and nothing else changes |
| Rasp.Engine.GetSecurityEventLog | src/localsports/src/rasp.cpp:549-552 | The stored events, in the order `LogSecurityEvent` appended them |
| Rasp.Engine.StartDebuggerMonitoring | src/localsports/src/rasp.cpp:175-204 | The monitor is running afterwards; when it was already running, nothing changes |
| Rasp.Engine.StopDebuggerMonitoring | src/localsports/src/rasp.cpp:206-213 | The running flag is cleared and nothing else changes |
| Rasp.Engine.ShutdownRASP | src/localsports/src/rasp.cpp:681-692 | Inactive: nothing changes. Active: the monitor is stopped and the engine becomes inactive |
| Rasp.Engine.IsRASPActive | src/localsports/src/rasp.cpp:694-696 | The active flag that initialisation sets and `ShutdownRASP` clears |
| Rasp.Engine.FailClosedShutdown | src/localsports/src/rasp.cpp:593-609 | Logs `FAIL_CLOSED_SHUTDOWN` with the reason, shuts down and ends the process |
| Rasp.Engine.HandleCriticalEvent | src/localsports/src/rasp.cpp:528-547 | Always appends one severity-3 event with this type and description first; with `terminate`, fail-closed follows |
| Rasp.Engine.VerifyTextSectionIntegrity | src/localsports/src/rasp.cpp:299-367 | The result is the verdict (empty expected passes, empty checksum fails, otherwise equality), and the log grows by that case's event |
| Rasp.Engine.BootTimeIntegrityCheck | src/localsports/src/rasp.cpp:369-380 | With checksums disabled: true and nothing logged. Otherwise the verdict, its event, and on failure `BOOT_INTEGRITY_FAILED` with termination |
| Rasp.Engine.InitializeRASP | src/localsports/src/rasp.cpp:624-679 | Already active: false, nothing changes. Otherwise it records the expected checksum and autoTerminate; a failed boot integrity check terminates, hooks found under autoTerminate terminate, and in every other case (hooks without autoTerminate included) it ends active and returns true; the log is exactly the checksum events followed by the boot-failure or hook event |
| Rasp.Engine.StartProtection | src/localsports/src/rasp.cpp:651-678 | Starts monitoring when enabled, logs `HOOK_DETECTED` when hooks are found, and ends active unless that terminated |
| Rasp.Engine.PerformSecurityScan | src/localsports/src/rasp.cpp:698-731 | Inactive: false and nothing logged. Otherwise true exactly when no enabled check (debugger, integrity, hooks) fails; under autoTerminate the first failure terminates; the log grows by exactly the scan's events |
| Rasp.Engine.IntegrityAndHookChecks | src/localsports/src/rasp.cpp:713-728 | The integrity and hook steps of the scan: their verdict, exit and events |
| Rasp.Engine.RaiseIf | src/localsports/src/rasp.cpp:706-711 | A failing check raises its critical event under the configured termination policy; a passing one changes nothing |
| Rasp.Engine.ConfigureRASP | src/localsports/src/rasp.cpp:734-736 | The configuration becomes the given value and nothing else changes, so `GetRASPConfig` returns the last value configured |
| Rasp.Engine.GetRASPConfig | src/localsports/src/rasp.cpp:738-740 | The configuration last stored by `ConfigureRASP` (the defaults before any) |
| LocalSports.FindIf | src/localsports/src/localsports.cpp:242 | The index of the first element satisfying the predicate, or none when no element does |
| LocalSports.FnvConcat | src/localsports/src/localsports.cpp:104-113 | Hashing a concatenation continues from the hash of the first part |
| LocalSports.Fnv1a64 | src/localsports/src/localsports.cpp:104-113 | The loop computes the FNV-1a-64 hash: offset 1469598103934665603, and per byte xor then multiply by 1099511628211 modulo 2^64; the empty string hashes to the offset |
| LocalSports.MaxId | src/localsports/src/localsports.cpp:97-99 | At least every id, one of them, and 0 for an empty table |
| LocalSports.NextId | src/localsports/src/localsports.cpp:97-101 | 1 for an empty table; above every existing id unless the maximum is 2^32-1, where it wraps to 0 |
| LocalSports.CopyTo | src/localsports/src/localsports.cpp:54-56 | The first min(C-string length, n-1) bytes of the source, NUL-free and fitting in `char[n]` |
| LocalSports.CopyToFitting | src/localsports/src/localsports.cpp:54-56 | A string that already fits is stored unchanged |
| LocalSports.Accept | src/localsports/src/localsports.cpp:42-45 | A line is accepted exactly when it parses as an int in full and lies in [lo, hi]; then it yields that value |
| LocalSports.ParseInt | src/localsports/src/localsports.cpp:44 | A parsed value lies in the int32 range |
| LocalSports.DecimalRoundTrip | src/localsports/src/localsports.cpp:44-45 | The decimal text of every int32 parses back to it |
| LocalSports.LeadingSpaceSkipped | src/localsports/src/localsports.cpp:44 | Leading whitespace does not change the parse |
| LocalSports.TrailingRejected | src/localsports/src/localsports.cpp:45 | A trailing non-digit makes the line unacceptable |
| LocalSports.FirstAccepted | src/localsports/src/localsports.cpp:38-51 | The first acceptable line, every earlier line being unacceptable, or none |
| LocalSports.Console.ReadLine | src/localsports/src/localsports.cpp:30-35 | The next line is consumed, or `""` at end of input |
| LocalSports.Console.ReadInt | src/localsports/src/localsports.cpp:37-52 | Re-prompts until the first acceptable line and returns its value, or 0 at end of input; the result is 0 or in [lo, hi] |
| LocalSports.ReadIntOfDecimal | src/localsports/src/localsports.cpp:37-52 | A line holding the decimal text of an int32 is accepted at once with that value |
| LocalSports.TallyConcat | src/localsports/src/localsports.cpp:362-370 | Totals over two stat lists combine field by field |
| LocalSports.TallyBounds | src/localsports/src/localsports.cpp:342-370 | With recorded stats bounded, a total has the player's id and sums between 0 and 100 (goals, assists, saves) or 10 (cards) times the stat count |
| LocalSports.TotalsOfEntries | src/localsports/src/localsports.cpp:359-372 | Every entry is the total of an active player, and every active player's total is an entry |
| LocalSports.InsertByGoalsCorrect | src/localsports/src/localsports.cpp:374 | Insertion keeps the order by goals, descending, and adds exactly the one total |
| LocalSports.SortByGoalsCorrect | src/localsports/src/localsports.cpp:374 | The sort is a permutation ordered by goals, descending |
| LocalSports.PlayerTotals | src/localsports/src/localsports.cpp:357-374 | The totals computed are a permutation of one entry per active player, ordered by goals, descending |
| LocalSports.IsNameAcceptable | src/localsports/src/localsports.cpp:170-173 | A name is accepted exactly when it is 3 to 31 bytes long and no active user has it |
| LocalSports.ReadAcceptableName | src/localsports/src/localsports.cpp:168-175 | Reads lines up to the first acceptable name and returns it, or none at end of input |
| LocalSports.HasActivePlayer | src/localsports/src/localsports.cpp:325-327 | True exactly when some player is active |
| LocalSports.RegisteredCanLogIn | src/localsports/src/localsports.cpp:164-191 | Registration succeeds only for the first acceptable name and matching passwords. It appends exactly one member with the new id. That member (when the name has no NUL bytes) can then log in with the password typed |
| LocalSports.TeamStore.constructor | src/localsports/src/localsports.cpp:26-27 | The tables as read, and no session |
| LocalSports.TeamStore.Init | src/localsports/src/localsports.cpp:131-142 | An empty user table gets exactly the user (1, "admin", fnv1a64("admin"), "admin", active); otherwise nothing changes |
| LocalSports.TeamStore.Login | src/localsports/src/localsports.cpp:146-162 | Succeeds exactly when some active user matches the name and the password's hash. Then the session is that first such user; on failure the session is unchanged |
| LocalSports.TeamStore.Logout | src/localsports/src/localsports.cpp:193-197 | The session is cleared, so the current user name is null |
| LocalSports.TeamStore.IsAuthenticated | src/localsports/src/localsports.cpp:199 | The session flag that a successful login sets and `Logout` clears |
| LocalSports.TeamStore.CurrentUsername | src/localsports/src/localsports.cpp:200 | The session's name when it is non-empty, and null otherwise |
| LocalSports.TeamStore.Register | src/localsports/src/localsports.cpp:164-191 | The outcome, the new user table and the remaining input are those of the registration rule over the input lines |
| LocalSports.TeamStore.AppendMember | src/localsports/src/localsports.cpp:181-188 | Appends one active member with the next id, the copied name and the password's hash |
| LocalSports.TeamStore.AddPlayer | src/localsports/src/localsports.cpp:224-236 | Appends one active player with the next id and the four fields copied; nothing else changes |
| LocalSports.TeamStore.EditPlayer | src/localsports/src/localsports.cpp:238-253 | Only the first active player with the id changes, and only in the fields whose input is non-empty; with no match nothing changes |
| LocalSports.TeamStore.RemovePlayer | src/localsports/src/localsports.cpp:255-264 | Only the first active player with the id changes, and only in its active flag; with no match nothing changes |
| LocalSports.TeamStore.AddGame | src/localsports/src/localsports.cpp:289-301 | Appends one unplayed game with the next id, the four fields copied and an empty result |
| LocalSports.TeamStore.RecordResult | src/localsports/src/localsports.cpp:303-313 | The first game with the id gets the copied result and is marked played; with no match nothing changes |
| LocalSports.TeamStore.RecordStats | src/localsports/src/localsports.cpp:316-351 | Outcome no games, no game with the id, no active player, or no active player with the id, each changing nothing. A game with the id and an active player with the id always record; then one stat with the next stat id, the game and player ids and the bounded counts is appended, referring to an existing game and an active player; the stored game and player ids read back as the typed ids |
| LocalSports.TeamStore.ViewPlayerTotals | src/localsports/src/localsports.cpp:353-374 | One total per active player, ordered by goals, descending |
| Common.SignedWrapRoundTrip | src/localsports/src/localsports.cpp:340-341 | An int32 stored as a 32-bit pattern reads back unchanged (what `RecordStats` relies on for the stored ids) |
| Common.CString | src/localsports/src/security_hardening.cpp:357 | The bytes before the first NUL |

## Left out

- Threads and locking: the monitor thread bodies (src/localsports/src/rasp.cpp:182-203, src/localsports/src/security_hardening.cpp:132-140), `join`, and the log mutex. They concern concurrency; only the running/active flags and their idempotence are modelled.
- OS probes, which are given as oracle values of `Rasp.Host` (a debugger flag, a hook count) because their results depend on the running system:
  - `DetectDebugger`, `IsDebuggerPresent`;
  - `DetectIATHooks`, `DetectPLTHooks`, `IsThunkModified`, `ScanCriticalFunctions`;
  - `VerifyProcessIsolation`, `IsRunningInVM`, `IsRootedOrJailbroken`, `GetExecutableHash`.
- Process-ending paths other than fail-closed. `SecureTerminate`, `TerminateOnThreat`, `RandomExitPoint` and `PerformSecurityChecks` call `std::exit` or the OS probes above. Fail-closed itself is the terminal `exited` flag.
- The Windows PE branch of the checksum (src/localsports/src/rasp.cpp:217-253). It reads loaded-module memory through raw pointers; only the ELF branch is modelled, as a search over the file's bytes.
- Rasp.Engine.InitializeRASP, Rasp.Engine.StartProtection, Rasp.Engine.PerformSecurityScan, Rasp.Engine.IntegrityAndHookChecks: the detectors' own `IAT_HOOK_DETECTED` and `PLT_HOOK_DETECTED` events (src/localsports/src/rasp.cpp:416-423, 453-460) are not logged; only the `HOOK_DETECTED` event of the caller is. The IAT detector is Windows-only, and on Linux both detectors return 0 and log nothing, so the hook count of `Rasp.Host` stands for the Windows result.
- Out-of-range reads in the ELF search. The source reads the section table without bounds checks; the model reads the same fields (`sh_name` of each header, `sh_offset` of the string-table header, `sh_offset`/`sh_size` of the hit) and treats any of those reads outside the image as failure (no checksum).
- OpenSSL primitives: PBKDF2, AES-256-GCM, SHA-256, base64, `RAND_bytes`. These are foreign calls, modelled as the function fields of `Crypto.CryptoLib` and `Rasp.Host.sha256`.
- Timestamps, console and log-file output. They are I/O:
  - the `timestamp` field of a security event;
  - log-level filtering and console messages;
  - the file append and truncate of the security log, which becomes only the "file opened" result.
- Other I/O and clocks:
  - `read_password_secure` (terminal entry, src/localsports/src/security_layer.cpp:295-329) and the environment read are parameters of `AppKeys.AppKey.InitFromEnvOrPrompt`;
  - the binary record files (`readAll`/`writeAll`, file touching in `LS_Init`) are the fields of `LocalSports.TeamStore`, and the model assumes files this program wrote itself: its constructor requires NUL-free strings that fit their arrays and stats within the prompt ranges, which every writer keeps;
  - write failures, which only change the message printed, are left out;
  - the table listings are console output;
  - `nowDateTime` and the message board (`LS_ListMessagesInteractive`, `LS_AddMessageInteractive`) depend on the clock and the console only.
- The cosmetic obfuscation functions: `OpaquePredicateAlwaysTrue`/`False`, `OpaqueLoop`, `CallObfuscated`, `FakeSecurityCheck`, `SecureLog`, `IsDebugBuild`. They depend on `time()`, randomness or the build mode.
- AppKeys.AppKey.InitFromEnvOrPrompt: does not state that the passphrase copy is zeroed after derivation (src/localsports/src/security_layer.cpp:358), because the passphrase is an immutable value in the model.
- Hardening.OpaqueMathPredicate: states the documented "always true" only for -46340 <= x <= 46340, because the 32-bit square overflows beyond that (see Findings).
- LocalSports.TeamStore.Register: at end of input the source's name loop spins forever on empty lines. The model stops with `InputExhausted` and appends nothing.
- LocalSports.TallyBounds: the source sums into `int` without overflow checks; the model uses unbounded sums and bounds them by the stat count instead of modelling 32-bit wrap-around.

Two behaviours of the code worth knowing:

- `DeriveKeyFromPassphrase` checks the salt only for a null pointer or a zero length (src/localsports/src/security_layer.cpp:125); a salt of any other length is accepted.
- Fail-closed stops the monitor through `ShutdownRASP`, which does nothing while the engine is not yet active (src/localsports/src/rasp.cpp:681-690). So a hook-triggered fail-closed during `InitializeRASP` exits with the monitor flag still set (`Rasp.Engine.FailClosedShutdown`, `Rasp.Engine.StartProtection`).

## Findings

| source | as written | input that shows it | evidently intended | confidence | as-written member | corrected member |
|---|---|---|---|---|---|---|
| src/localsports/src/security_hardening.cpp:348-352 | `x * x` in 32-bit `int`, then `>= 0` | x = 46341: the square 2147488281 wraps negative, so the "always true" predicate is false | true for every x (square in a wider type) | not executed | Hardening.OpaqueMathPredicateOverflows | Hardening.OpaqueMathPredicateWide |
| src/localsports/src/security_hardening.cpp:458-473 | the loop runs `while (multiplicand > 0)` on a signed `int` | a = 5, b = -6: the loop never runs and the result is 0, not -30 | the 32-bit wrapping product for all inputs (loop over the unsigned pattern) | not executed | Hardening.ObfuscateMultiplyNegativeExample | Hardening.ObfuscateMultiplyUnsigned |

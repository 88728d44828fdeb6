# ocserv record layer and key delegation, modelled in Dafny

This project models the parts of ocserv's `src/tlslib.c` that do more than call
GnuTLS or the operating system:

- **Record I/O retry loops** (`tls_send`, `tls_send_nb`, `tls_recv`), in `record_io.dfy` and
  `record_io_props.dfy`. The engine is a finite script of the values that
  `gnutls_record_send`/`gnutls_record_recv` return on successive calls. A run records
  every call the loop makes, as the region of the caller's buffer that call was handed,
  and how the run ended. It ends either by returning a value or as `Exhausted`, meaning
  the script ran out while the loop would call again. Each loop is modelled twice: as a
  recursive function over the script, whose contract characterises the run, and as a
  `while` loop written like the C code, proved to compute the same run.
- **Corrected send** (`send_bounds.dfy`): a corrected `tls_send` for the two defects
  listed under Findings.
- **Session-cache teardown** (`tls_cache_deinit`), in `session_cache.dfy`. The hash table
  is the sequence of its entries in iteration order. Teardown reports every entry in the
  state it had when it was released. The model proves the scrub-before-free invariant for
  each entry, and that the table and the counter end empty.
- **Key delegation** (`key_cb_common_func`, `key_cb_sign_func`, `key_cb_decrypt_func`),
  in `key_delegation.dfy`. It covers the request encoder, the response length field in
  host byte order (a parameter), and one round trip against a `Custodian`. The
  `Custodian` value says how each socket call turns out.
- **Overhead fallback**: the fallback branch of `tls_get_overhead`, in `overhead.dfy`. The
  block size and MAC length are parameters, and the `unsigned` accumulator wraps
  explicitly. It is checked against an independent reference that counts the bytes a
  TLS or DTLS record adds to its payload.
- **Verification policy**: the certificate decision (`verify_certificate_cb`) and
  `tls_has_session_cert`, in `verify_policy.dfy`.

Helper files: `ctypes.dfy` holds the C integer types and the `size_t`-to-`int`
conversion, `engine.dfy` the GnuTLS return codes (AGAIN −28, INTERRUPTED −52,
CERTIFICATE_ERROR −43, INTERNAL_ERROR −59), and `wrappers.dfy` an `Option` type.

## Model

| member | source | states |
|---|---|---|
| CTypes.IntOfSize | src/tlslib.c:49 | `int left = data_size` keeps the size modulo 2^32: sizes below 2^31 are unchanged, and sizes from 2^31 to 2^32 become negative |
| RecordIo.SendFromRun | src/tlslib.c:52-62 | every call of the `tls_send` loop starts where the accepted counts have moved the pointer and is handed `data_size` bytes. Calls are made only while `left` minus the counts is positive. No call but the last was fatal. The run ends with the fatal result, with `data_size` once the counts cover `left`, or by running out of script |
| RecordIo.Send | src/tlslib.c:45-65 | `tls_send` returns the first fatal result unchanged, and that result comes from the last call it makes. Otherwise it returns `data_size`, only once the accepted counts reach `left`. Every call is handed `data_size` bytes from where the counts moved the pointer, while the counts are still below `left`. On a fatal-free script whose counts reach `left` it always returns `data_size` |
| RecordIo.SendLoop | src/tlslib.c:45-65 | the `while (left > 0)` loop as written makes the same calls and returns the same value as `Send` |
| RecordIo.SendNbFromRun | src/tlslib.c:75-87 | the `tls_send_nb` loop: calls as in `tls_send`, but the loop stops at the first negative result other than INTERRUPTED. AGAIN yields `data_size` and any other negative result is returned unchanged |
| RecordIo.SendNb | src/tlslib.c:68-90 | an AGAIN result makes `tls_send_nb` report `data_size`, however few bytes were accepted. Without a final AGAIN, `data_size` is reported only once the counts reach `left`. Other negative results are returned unchanged, and no call follows AGAIN or a fatal result. Every call is made while the counts are below `left`, and is handed `data_size` bytes from where the counts moved the pointer. An engine that never answers AGAIN or a fatal code, and whose counts reach `left`, gets `data_size` reported, so INTERRUPTED is retried |
| RecordIo.SendNbLoop | src/tlslib.c:68-90 | the loop as written computes the same run as `SendNb` |
| RecordIo.Recv | src/tlslib.c:115-124 | `tls_recv` retries only while the result is INTERRUPTED or AGAIN, and returns the first other result unchanged, including 0 and positive counts |
| RecordIo.RecvLoop | src/tlslib.c:115-124 | the do-while loop as written computes the same run as `Recv` |
| RecordIoProperties.SendIgnoresIdle | src/tlslib.c:52-62 | AGAIN, INTERRUPTED and 0 never change `left`: removing them from the script does not change how `tls_send` ends |
| RecordIoProperties.SendNbIgnoresIdle | src/tlslib.c:75-87 | INTERRUPTED and 0 never change how `tls_send_nb` ends |
| RecordIoProperties.SendNbMatchesSendWithoutAgain | src/tlslib.c:45-90 | on an engine that never answers AGAIN, `tls_send_nb` makes exactly the calls of `tls_send` and returns the same value |
| RecordIoProperties.SendNbStopsAtFirstAgain | src/tlslib.c:76-79 | at the first AGAIN, where `tls_send` would keep calling, `tls_send_nb` stops after that same call and reports `data_size` |
| RecordIoProperties.RecvIgnoresRetryable | src/tlslib.c:119-123 | `tls_recv` returns the value the engine would give on its first call if it never answered INTERRUPTED or AGAIN |
| SendBounds.SendOverreadsAfterPartialWrite | src/tlslib.c:53-60 | after a partial first write, the second call is handed `data_size` bytes from offset `ret`, which run past the end of the buffer |
| SendBounds.SendOverreadExample | src/tlslib.c:53-60 | a 10-byte send with 4 bytes accepted first: the second call is handed bytes 4 to 13 |
| SendBounds.SendSkipsSizesAboveIntMax | src/tlslib.c:49-52 | a size whose low 32 bits are 2^31 or more is reported as sent, with no engine call and no bytes accepted |
| SendBounds.SendTruncatesSizesAboveUintMax | src/tlslib.c:49-62 | a size of 2^32 or more whose low 32 bits are below 2^31 is counted by those bits alone: once the engine has accepted that many bytes without a fatal result, the whole size is reported as sent |
| SendBounds.SendTruncationExample | src/tlslib.c:49-62 | a send of 2^32 + 10 bytes makes one call, which accepts 10 bytes, and then reports 2^32 + 10 as sent |
| SendBounds.SendBounded | src/tlslib.c:45-65 | corrected `tls_send`: every call is handed exactly the bytes that remain, a non-empty region inside the buffer starting where the previous counts end. The first fatal result is returned unchanged as the last call. `data_size` is reported only after fatal-free calls whose counts cover all of it, and always on a fatal-free script whose counts do |
| SendBounds.SendBoundedMatchesSendOutcome | src/tlslib.c:45-65 | for sizes below 2^31, the correction makes the same number of calls and returns the same value as the code as written |
| SessionCache.SafeMemset | src/tlslib.c:206 | the first `n` bytes of the session data become zero, and the rest of the buffer is unchanged |
| SessionCache.Scrub | src/tlslib.c:205-209 | an entry with data has all its live data bytes zeroed and both sizes reset, and its id bytes and the buffer tail are kept. An entry without data is left untouched |
| SessionCache.ScrubIdempotent | src/tlslib.c:205-209 | a scrubbed entry holds no data, so scrubbing it again changes nothing |
| SessionCache.CacheDeinit | src/tlslib.c:198-219 | every entry is released exactly once, in iteration order. Each release meets the scrub-before-free invariant: an entry with data is zeroed with sizes 0, and an entry without data is untouched. Afterwards the table is empty and `entries` is 0 |
| KeyDelegation.EncodeRequest | src/tlslib.c:419-427 | the request is the key index modulo 256 (so unchanged only when it fits a byte), then the operation tag, then the operand unchanged |
| KeyDelegation.RequestRoundTrip | src/tlslib.c:419-427 | the request is `[idx mod 256, op]` followed by the operand with no length prefix, and splitting it after two bytes recovers index, tag and operand |
| KeyDelegation.ParsedRequestReencodes | src/tlslib.c:419-427 | any byte string of at least two bytes is the request for its own header and operand |
| KeyDelegation.HostUint16 | src/tlslib.c:434-441 | the length field read into a `uint16_t`: the first byte received is the low byte on a little-endian host and the high byte on a big-endian one |
| KeyDelegation.LengthRoundTrip | src/tlslib.c:434-441 | the 2-byte length field read in host byte order gives back the `uint16_t` the key process wrote in the same order |
| KeyDelegation.LengthBytesRoundTrip | src/tlslib.c:434-441 | the two length bytes are recovered from the value they are read as |
| KeyDelegation.KeyCbCommon | src/tlslib.c:392-465 | returns 0 or INTERNAL_ERROR, and hands back a buffer holding the result exactly on 0. It succeeds if and only if socket, connect and writev succeed, the first read yields 2 bytes, allocation succeeds, and the body read yields more than 0 bytes. On success the output is exactly the bytes the body read stored: more than 0, at most the announced length, all of it when the body holds that many, and `size` is their count. `size` is set once the length field has been read, and a failure after that leaves it at the announced length. A failed body read releases the buffer but leaves the pointer to it; every other failure leaves the pointer null. What reaches the socket is the request, or the part writev took |
| KeyDelegation.KeySign | src/tlslib.c:467-472 | the sign wrapper puts tag `'S'` on the wire after the key index |
| KeyDelegation.KeyDecrypt | src/tlslib.c:474-478 | the decrypt wrapper puts tag `'D'` on the wire after the key index |
| KeyDelegation.SignAndDecryptDifferOnlyInTag | src/tlslib.c:467-478 | sign and decrypt return the same code and output, and their wire bytes differ only in the tag byte |
| KeyDelegation.ResponseRoundTrip | src/tlslib.c:434-458 | a key process that answers with its result's length in host order, then the whole result, has that result handed back with return code 0 |
| KeyDelegation.ShortBodyIsAccepted | src/tlslib.c:448-455 | a length field of 5 followed by only 3 body bytes succeeds, and the 3 bytes are handed back |
| KeyDelegation.ZeroLengthResponseFails | src/tlslib.c:441-453 | a response that announces 0 bytes always fails with INTERNAL_ERROR and no result. Once the request went out and allocation succeeded, it leaves a released pointer and `size` 0 |
| KeyDelegation.FailedBodyReadLeavesReleasedBuffer | src/tlslib.c:441-463 | when the key process announces `n` bytes and then the body read fails or sees the connection closed, the caller gets INTERNAL_ERROR, a non-null pointer to released memory, and `size` `n` |
| Overhead.FallbackOverhead | src/tlslib.c:720-761 | unless the `unsigned` sum wraps, the estimate always counts the record header for the version and the MAC length, and a cipher the switch does not name adds nothing else |
| Overhead.FallbackCoversRecordExpansion | src/tlslib.c:720-761 | for the ciphers the switch names and for stream ciphers, the fallback is never less than the bytes a record actually adds: the header, the explicit IV, minimal CBC padding and the MAC; or the GCM nonce and tag; or the MAC alone |
| Overhead.FallbackIsTight | src/tlslib.c:720-761 | equality holds for CBC records whose payload and MAC fill whole blocks with an explicit IV, for AES-GCM without a MAC, and for the other ciphers |
| Overhead.DatagramCostsEightMore | src/tlslib.c:724-735 | the header adds 13 bytes for DTLS 0.9, 1.0 and 1.2, and 5 for every other version, so DTLS costs exactly 8 bytes more |
| Overhead.FallbackExamples | src/tlslib.c:724-761 | TLS with AES-128-CBC and a 20-byte MAC gives 57, DTLS gives 65, and TLS with AES-128-GCM gives 29 |
| Overhead.FallbackUnderestimatesUnlisted | src/tlslib.c:740-759 | a block or AEAD cipher the switch does not name gets only header and MAC, which is less than any record it protects adds |
| Overhead.FallbackUnlistedAeadExample | src/tlslib.c:740-759 | an unlisted AEAD cipher over TLS 1.2 with no MAC is counted as 5 bytes, while the record adds 29 |
| Overhead.CorrectedOverhead | src/tlslib.c:720-761 | corrected fallback: it keeps the code's count for the named ciphers and stream ciphers, and adds a CBC-like or GCM-like allowance for the others |
| Overhead.CorrectedCoversRecordExpansion | src/tlslib.c:720-761 | the corrected count is never less than the bytes a record adds, for every cipher |
| VerifyPolicy.VerifyCertificate | src/tlslib.c:239-293 | with no worker state it returns −1. The DTLS session returns 0 with its state untouched. Otherwise `cert_auth_ok` is set exactly when verification succeeded with status 0, and the result is CERTIFICATE_ERROR exactly when the chain is not valid and `cisco_client_compat` is off, and 0 in every other case |
| VerifyPolicy.HasSessionCert | src/tlslib.c:129-146 | true exactly when `cert_auth_ok` is set, or compat mode is on and the engine holds peer certificates |
| VerifyPolicy.SessionCertAfterHandshake | src/tlslib.c:129-146 | after a handshake the gate let through, the session counts as certificate-authenticated exactly when the chain was valid, or compat mode is on and certificates were presented |
| VerifyPolicy.HandshakeProceedsOnlyIfValidOrCompat | src/tlslib.c:254-291 | a handshake proceeds only with a valid chain or compat mode on. Without compat mode, proceeding implies `cert_auth_ok` |
| VerifyPolicy.StatusPrintIsIrrelevant | src/tlslib.c:265-279 | the return code of printing the status never changes the decision |

## Behaviour of the code worth knowing

The model follows the code in each case.

- **Short response body.** A delegation client would be expected to read exactly the
  announced number of result bytes, and to fail when fewer arrive. The code fails only
  when the body read returns 0 or less (line 449). A short read is accepted, and the output
  size becomes the count actually read (line 455). `KeyDelegation.ShortBodyIsAccepted`
  shows this.
- **MAC length under AEAD.** An AEAD record carries no separate MAC. The code adds the MAC
  length whenever it is positive, whatever the cipher (lines 757-759). For AES-GCM the MAC
  lookup gives 0, so in practice nothing extra is added.
- **Output on failure.** The output pointer is set to null on entry (line 402). The error
  path releases the buffer (line 462) but does not reset the pointer, and it leaves `size`
  at the announced length (line 441). `KeyDelegation.FailedBodyReadLeavesReleasedBuffer`
  shows this state. Whether it matters depends on the caller not touching the output after
  an error, which is not part of this model.

## Left out

- `tls_send_file` and `tls_printf` are left out: file reading and `vsnprintf` formatting.
- `tls_close`, `tls_fatal_close`, `tls_cork`, `tls_uncork`, `tls_global_init` and
  `tls_global_deinit` are left out: each is one or two GnuTLS calls with no logic of its own.
- `tls_cache_init` is left out: it is a talloc allocation with `exit(1)` on failure. Its
  result is the empty `HashDb([], 0)`. `rehash`, `hash_any` and the htable internals are
  replaced by a sequence in iteration order.
- Credential and configuration loading is left out: `load_cert_files`, `tls_load_certs`,
  `set_dh_params`, `certificate_check` and `tls_reload_crl` are X.509, PEM, DH and CRL
  handling inside GnuTLS. `key_cb_deinit_func` only releases memory.
- `calc_sha1_hash` is left out: hashing and hex encoding are foreign calls, and the upper-casing loop is trivial.
- The primary `tls_get_overhead` path (`gnutls_est_record_overhead_size`) is left out: it is a foreign call.
- Logging (`syslog`, `oclog`, the GnuTLS log callbacks) and talloc memory pools are left out.
- Concurrency between connections sharing the cache is left out.
- RecordIo.Recv: only the return value of `gnutls_record_recv` is modelled, not the bytes it stores into the buffer.
- RecordIo.Send: the loops may call the engine without end. A run is modelled only over a finite script, and reaching the script's end is reported as `Exhausted`.
- RecordIo.Send: the value `data_size` is returned as an unbounded integer. Its reinterpretation as `ssize_t` for sizes of 2^63 and above is not modelled.
- RecordIo.SendNb: it has the same over-read as `tls_send` (line 76) and is modelled as written. No corrected `tls_send_nb` is given.
- KeyDelegation.KeyCbCommon: the socket address and the errno values only feed `connect()` and the log. Whether each call succeeds is an input. `close(sd)` is not modelled.
- Overhead.FallbackCoversRecordExpansion: it holds only for the ciphers the switch names and for stream ciphers. Block and AEAD ciphers outside the list are underestimated (see Findings). It assumes block size and MAC length below 2^16, so the `unsigned` sum does not wrap. It also assumes the AES-GCM block size equals the 16-byte tag, which is what the fallback relies on.
- Overhead.RecordExpansion: every AEAD cipher is taken to frame records like AES-GCM in TLS 1.2, with an 8-byte explicit nonce and a 16-byte tag. Ciphers with other nonce or tag sizes are not modelled.

## Findings

| source | as written | input that shows it | evidently intended | confidence | as-written member | corrected member |
|---|---|---|---|---|---|---|
| src/tlslib.c:53 | after a partial write, each further call is handed `data_size` bytes from the advanced pointer, which reads past the end of the caller's buffer | `data_size` 10, engine accepts 4 bytes first: the second call is handed bytes 4 to 13 of a 10-byte buffer | hand each call the `left` bytes that remain | high; not executed | SendBounds.SendOverreadsAfterPartialWrite | SendBounds.SendBounded |
| src/tlslib.c:49 | `left` is an `int` initialised from a `size_t`, so it holds the low 32 bits of the size. Sizes whose low 32 bits are 2^31 or more wrap to a negative `left` that the loop never enters, and success is reported with nothing sent. Larger sizes are cut to their low 32 bits, and success is reported once only those are sent (`SendBounds.SendTruncatesSizesAboveUintMax`) | `data_size` 2^31: `left` is −2^31, no call is made, and 2^31 is returned. `data_size` 2^32 + 10: one call accepting 10 bytes, and 2^32 + 10 is returned | count the remaining bytes in a type as wide as `size_t` | medium (such sizes may never reach this function); not executed | SendBounds.SendSkipsSizesAboveIntMax | SendBounds.SendBounded |
| src/tlslib.c:753 | a cipher the switch does not name gets no allowance for IV, padding, nonce or tag | an unlisted AEAD cipher over TLS 1.2 with no MAC: the estimate is 5, while the record adds 29 | give every block or AEAD cipher an allowance of its kind | low (which ciphers reach this path depends on the library version); not executed | Overhead.FallbackUnderestimatesUnlisted | Overhead.CorrectedCoversRecordExpansion |

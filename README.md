# Expiring tokens — a Dafny model

This project models the core of a small Go library of expiring tokens. A token holds an
expiration timestamp in milliseconds and some bytes. It is serialised, sealed by
authenticated encryption and handed out. Verification opens it, reads it back and
checks that the current instant is strictly before its expiration instant.

Modules, one per Go package plus shared helpers:

- `PlainToken` (`plain/plaintoken.go`): the token. Its wire form is an 8-byte big-endian
  two's-complement timestamp followed by the payload. The module also has the
  constructors and the expiry check. `Marshal` is a method that allocates an array and
  fills it in place. The pure function `Encoded` specifies it.
- `RootToken` (`token.go`): the ASN.1-serialised token sealed with ChaCha20-Poly1305
  (section 2.8 of RFC 8439). The output is a 12-byte nonce followed by the AEAD output,
  whose 16-byte tag makes `Overhead` 28. `Seal` is a method that reads the nonce into a
  fresh buffer. `Open` and `Verify` are functions.
- `SymmetricToken` (`symmetric/symmetric.go`) and `AsymmetricToken`
  (`asymmetric/asymmetric.go`): issue = build, marshal, seal with a locker. Verify =
  open, unmarshal, check expiry. The symmetric one collapses failures into
  `ErrDecrypt`/`ErrUnmarshal`. The asymmetric one passes them on unchanged. Both call
  the plaintoken API (`NewWithTime` returning an error, `Marshal`, `Unmarshal`,
  `Verify`, `Payload`), so both are bound to `PlainToken`.
- `Lockers`: a locker is a pair of functions. What it guarantees (open-after-seal with
  the same key or a matching key pair; rejection under a mismatched key) is stated as
  the hypotheses `OpensSealed` and `RejectsSealed`.
- `WrapperAgreement`: relates the two verification pipelines.
- `Errors`, `GoNumeric`, `GoTime`, `BigEndian`: Go's error values, its int64/uint64
  conversions and truncating `/` and `%`, `time.Unix` and `UnixNano()/1e6`, and
  `encoding/binary`'s big-endian byte order.

Time is an integer number of nanoseconds since the Unix epoch. The current time `now` is
a parameter. `time.Time` values compare exactly, so expiration instants are unbounded
integers. A `UnixNano` reading is an `int64`. Bytes are `seq<bv8>`. A variadic argument
is a sequence of byte sequences. A Go `(*Token, error)` pair is a `Reply`, whose two
halves can both be present: an expired token comes back with its error.

How the code reports failures and handles its data:

- There is no single "malformed token" error. The symmetric pipeline reports a plaintext
  shorter than 8 bytes as `ErrUnmarshal`. The asymmetric one passes on plaintoken's
  "invalid data length".
- `token.go`'s `AdditionalData` is a field encrypted inside the token. The AEAD itself is
  called with nil associated data.
- `token.go`'s `NewWithTime` panics when the additional data is given twice. The model
  makes that a precondition; it does not return an error.

## Model

| member | source | states |
|---|---|---|
| `GoNumeric.Rem` | plain/plaintoken.go:26 | Go's `%` by a positive constant: the remainder is smaller than the divisor in magnitude and has the dividend's sign |
| `GoNumeric.Quo` | plain/plaintoken.go:27 | Go's `/` rounds toward zero: `Quo(a,b)*b + Rem(a,b) == a`, and the quotient has the dividend's sign |
| `GoNumeric.ToUint64` | plain/plaintoken.go:57 | `uint64(x)` keeps the 64 bits: it equals `x` modulo 2^64, and its top bit is set exactly when `x` is negative |
| `GoNumeric.ToInt64` | plain/plaintoken.go:67 | `int64(u)` is the inverse of `uint64(x)` |
| `GoNumeric.ToInt64ToUint64` | plain/plaintoken.go:57-67 | converting an int64 to uint64 and back gives the original value |
| `GoTime.SplitMillis` | plain/plaintoken.go:26-27 | `sec*1000 + msec == ts`, `abs(msec) < 1000`, and `msec` (and `sec`) carry the sign of the timestamp |
| `GoTime.Unix` | plain/plaintoken.go:28 | `time.Unix(sec, nsec)` normalises: the instant's whole seconds are `sec` plus the seconds carried out of `nsec`, and its nanoseconds within the second are `nsec` modulo 10^9 |
| `GoTime.FromMillis` | plain/plaintoken.go:25-29 | `time.Unix(sec, msec*1e6)` of the split timestamp is exactly `ts * 10^6` nanoseconds |
| `GoTime.ToMillis` | plain/plaintoken.go:36 | `UnixNano()/1e6` rounds toward zero: for a non-negative instant `ts*10^6 <= exp < ts*10^6 + 10^6`, for a negative one `ts*10^6 - 10^6 < exp <= ts*10^6` |
| `BigEndian.Encode` | plain/plaintoken.go:57 | the n-byte big-endian form of a value has exactly n bytes |
| `BigEndian.Decode` | plain/plaintoken.go:67 | `BigEndian.Uint64` reads n bytes as a value below 256^n |
| `BigEndian.DecodeEncode` | plain/plaintoken.go:57-67 | decoding the big-endian encoding of a value that fits gives the value back |
| `BigEndian.EncodeDecode` | plain/plaintoken.go:57-67 | encoding a decoded byte sequence gives the same bytes back |
| `BigEndian.DecodeFront` | plain/plaintoken.go:67 | the first byte is the most significant digit: `Decode(s) == s[0]*256^(n-1) + Decode(s[1..])` |
| `BigEndian.PutUint64` | plain/plaintoken.go:57 | writes the 8-byte big-endian form of `v` into `b[0..8]` and leaves the rest of `b` unchanged |
| `PlainToken.ExpirationTime` | plain/plaintoken.go:25-29 | the expiration instant is the timestamp times 10^6 nanoseconds |
| `PlainToken.NewWithTime` | plain/plaintoken.go:31-42 | fails with the "at most once" error iff more than one payload is given; otherwise the payload is the argument, or empty when none is given; the timestamp is `exp` in ms rounded toward zero, so the expiry is within 1 ms of `exp`, on the side of zero |
| `PlainToken.NewWithDuration` | plain/plaintoken.go:44-46 | is `NewWithTime(now + d)` |
| `PlainToken.Verify` | plain/plaintoken.go:48-53 | no error iff `now` is strictly before the expiration instant, otherwise exactly `ErrExpired` |
| `PlainToken.ExpiredAtExpirationTime` | plain/plaintoken.go:48-53 | a token is expired at its exact expiration instant and valid one nanosecond before it |
| `PlainToken.ExpiryIsMonotonic` | plain/plaintoken.go:48-53 | a token expired at `now` is expired at every later instant |
| `PlainToken.IssuedTokenExpiry` | plain/plaintoken.go:35-53 | a token made for `exp` is valid 1 ms before `exp` and expired 1 ms after it; if `exp >= 0` it is expired at `exp`; if `exp < 0` it is valid just before `exp` |
| `PlainToken.Encoded` | plain/plaintoken.go:55-60 | the wire form has length `8 + len(Payload)`; bytes 8.. are the payload; bytes 0..8 read big-endian give `uint64(ExpirationTimestamp)` |
| `PlainToken.Marshal` | plain/plaintoken.go:55-60 | filling a fresh array with `PutUint64` and then copying the payload yields exactly `Encoded(t)`, and never an error |
| `PlainToken.Unmarshal` | plain/plaintoken.go:62-70 | fails, with "invalid data length", iff the input is shorter than 8 bytes; otherwise the payload is everything after byte 8 and the timestamp's bits are the first 8 bytes read big-endian |
| `PlainToken.UnmarshalMarshal` | plain/plaintoken.go:55-70 | `Unmarshal(Marshal(t))` gives back `t`, including an empty payload |
| `PlainToken.MarshalUnmarshal` | plain/plaintoken.go:55-70 | for every input of at least 8 bytes, `Marshal(Unmarshal(b)) == b` |
| `PlainToken.UnmarshalInjective` | plain/plaintoken.go:62-70 | only the token's own wire form unmarshals to it |
| `PlainToken.SignBitOnWire` | plain/plaintoken.go:57 | two's complement on the wire: the top bit of the first byte is set iff the timestamp is negative |
| `RootToken.PlaintextSize` | token.go:36-38 | the declared plaintext size is exactly the number of bytes that hold a 64-bit timestamp (256^n = 2^64) |
| `RootToken.CiphertextSize` | token.go:36-42 | the declared ciphertext size is nonce + plaintext + tag = 12 + 8 + 16 = 36, for every token |
| `RootToken.ExpirationTime` | token.go:44-48 | the expiration instant is the timestamp times 10^6 nanoseconds |
| `RootToken.NewWithTime` | token.go:50-61 | the additional data is the one argument, or empty; the timestamp is `exp` in ms rounded toward zero (bounds as in plaintoken); more than one argument is excluded, as the source panics |
| `RootToken.NewWithDuration` | token.go:63-65 | is `NewWithTime(now + d)` |
| `RootToken.IsValid` | token.go:78-80 | true iff `now` is strictly before timestamp × 10^6 ns |
| `RootToken.SealWithNonce` | token.go:82-97 | an ASN.1 error is returned as is; a key that is not 32 bytes gives the bad-key-length error; otherwise the output starts with the nonce, and the rest is the AEAD output over the ASN.1 form |
| `RootToken.Seal` | token.go:82-98 | an ASN.1 error, then a bad key length, is returned before any randomness is read; with at least 12 random bytes available the output is `SealWithNonce` under the first 12 of them; otherwise the call fails with EOF (no byte) or unexpected EOF (some bytes) |
| `RootToken.Open` | token.go:100-118 | the key-size check comes first; then a ciphertext shorter than 12 bytes gives `ErrInvalidSize`; otherwise `ct[:12]` is the nonce and `ct[12:]` the AEAD body; an AEAD error passes through, and after a successful open the result is exactly what ASN.1 decoding returns, its error included |
| `RootToken.Verify` | token.go:67-76 | an `Open` error comes back alone with no token; an opened token comes back, with `ErrExpired` iff it is no longer valid |
| `RootToken.SealedLength` | token.go:91-96 | a sealed token is exactly `Overhead` = 28 bytes longer than its ASN.1 form |
| `RootToken.OpenSealed` | token.go:91-108 | `Open` splits the output where `Seal` joined it: it recovers the nonce and gives back the sealed token |
| `RootToken.VerifySealed` | token.go:67-118 | verifying a sealed token returns it: with no error strictly before expiry, and with `ErrExpired` from then on |
| `RootToken.IssueSealVerifyScenario` | token_test.go:19-55 | a 100 ms token verifies with its additional data at +50 ms; at +200 ms it fails with `ErrExpired` and still returns the additional data |
| `SymmetricToken.Seal` | symmetric/symmetric.go:26-33 | the locker is given a plaintext that unmarshals to exactly the token, and the locker's result is returned as it is |
| `SymmetricToken.NewWithTime` | symmetric/symmetric.go:35-41 | more than one payload gives the construction error, and the locker is not called; otherwise the token is sealed |
| `SymmetricToken.NewWithDuration` | symmetric/symmetric.go:43-49 | is `NewWithTime(now + d)` |
| `SymmetricToken.Verify` | symmetric/symmetric.go:51-64 | any locker failure gives `(nil, ErrDecrypt)`; a plaintext shorter than 8 bytes gives `(nil, ErrUnmarshal)`; a plaintext of 8 or more bytes always yields the unmarshalled token, which is returned with no error iff it has not expired, and `ErrExpired` otherwise |
| `SymmetricToken.VerifyOutcomes` | symmetric/symmetric.go:51-64 | verification ends in one of four terminal states: decrypt failure, unmarshal failure, expired with the token, valid |
| `SymmetricToken.IssueThenVerify` | symmetric/symmetric.go:26-64 | if opening under the key inverts sealing, verifying an issued token returns that token: with no error before expiry, `ErrExpired` from then on |
| `SymmetricToken.CurrentTokenScenario` | symmetric/token_test.go:31-53 | a 100 ms token verifies with its payload at +50 ms; at +200 ms it fails and still returns the payload |
| `AsymmetricToken.Seal` | asymmetric/asymmetric.go:40-47 | the locker is given a plaintext that unmarshals to exactly the token, and the locker's result is returned as it is |
| `AsymmetricToken.NewWithTime` | asymmetric/asymmetric.go:24-30 | a construction error is returned as it is, and the locker is not called; otherwise the token is sealed |
| `AsymmetricToken.NewWithDuration` | asymmetric/asymmetric.go:32-38 | is `NewWithTime(now + d)` |
| `AsymmetricToken.Verify` | asymmetric/asymmetric.go:49-62 | a locker error is returned unchanged, with no token; an unmarshal error (inputs shorter than 8 bytes) is returned unchanged, with no token; a plaintext of 8 or more bytes always yields the unmarshalled token, which has no error iff it has not expired, and `ErrExpired` otherwise |
| `AsymmetricToken.IssueThenVerify` | asymmetric/asymmetric.go:24-62 | if opening with `pk` inverts sealing with `sk`, verifying an issued token with `pk` returns that token: with no error before expiry, `ErrExpired` from then on |
| `AsymmetricToken.WrongKeyRejected` | asymmetric/token_test.go:44-51 | under a key that does not open what `sk` sealed, verification returns the locker's error and no token |
| `AsymmetricToken.CurrentTokenScenario` | asymmetric/token_test.go:19-62 | a 100 ms token from `sk` verifies under `pk` with its payload at +50 ms; it fails under a mismatched key; at +200 ms it fails under `pk` and still returns the payload |
| `WrapperAgreement.SymmetricCollapsesErrors` | symmetric/symmetric.go:51-64 | over the same locker both pipelines return the same token and agree on whether there is an error. Given a token, the errors are identical. Without one, the symmetric error is `ErrDecrypt` or `ErrUnmarshal` |

## Left out

- The ChaCha20-Poly1305 cipher and the `locker` package (`Symmetric`, `NewAsymmetric`, `GenerateKey`) are foreign cryptographic libraries. They are functions passed in as parameters. Their guarantees (`RootToken.AeadCorrect`, `Lockers.OpensSealed`, `Lockers.RejectsSealed`) are hypotheses of the lemmas that need them. Tamper detection and associated-data binding are properties of that cryptography and are not modelled.
- `encoding/asn1` (DER, ITU-T X.690) is abstract: `RootToken.Asn1RoundTrips` is a hypothesis. As a consequence, `PlaintextSize` and `CiphertextSize` are modelled as the constants the source declares (8 and 36). The actual ASN.1 form, and so the actual sealed length, depends on the token.
- `crypto/rand`: the random source is the finite byte sequence `entropy`. Its quality is not modelled.
- Wall-clock reads (`time.Now()`) are the parameter `now`. `time.Duration`/`time.Time` saturation and overflow at the edges of the int64 nanosecond range are left out. `NewWithTime` takes an int64 `UnixNano` reading, and `NewWithDuration` requires `now + d` to fit an int64.
- The package-level `Locker` globals are an explicit `locker` argument. The wrappers' unused `ErrInvalidSize` is not modelled.
- A Go locker may return a ciphertext and an error together. Here a locker returns one or the other.
- `Marshal`'s error result is always nil, so the wrappers' branch on it is dead and does not appear.
- Go distinguishes a nil payload from an empty one. Here both are the empty sequence.
- Payload aliasing is not modelled. `NewWithTime` stores the caller's slice `payload[0]` itself (plain/plaintoken.go:39), and `Unmarshal`'s `Payload` is `mt[8:]`, sharing the input's backing array (plain/plaintoken.go:68). Bytes are immutable `seq<bv8>` values here, so a later write through the caller's slice or the input buffer, which in Go changes the token's payload, has no counterpart.
- The symmetric test reads `AdditionalData` from the returned token, but the plaintoken `Token` has no such field. The model reads it as the payload.
- `RootToken.NewWithTime`, `RootToken.NewWithDuration`: the panic on more than one additional-data argument is a precondition, not an error result.
- Test harness mechanics (`time.Sleep`, logging, `reflect.DeepEqual`) are not modelled. The tests appear only as the scenario lemmas.

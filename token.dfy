/** The sealed token of the root package (token.go): an expiration timestamp and
    additional data, serialised with ASN.1 and sealed with the ChaCha20-Poly1305 AEAD
    of section 2.8 of RFC 8439 under a random 12-byte nonce that prefixes the output. */
module RootToken {
  import opened Errors
  import opened GoNumeric
  import GoTime
  import BigEndian

  const KeySize := 32     // chacha20poly1305.KeySize
  const NonceSize := 12   // chacha20poly1305.NonceSize
  const TagSize := 16     // chacha20poly1305Overhead, the Poly1305 tag
  const Overhead := NonceSize + TagSize

  /** `ExpirationTimestamp` counts milliseconds since the Unix epoch. */
  datatype Token = Token(expirationTimestamp: int64, additionalData: seq<bv8>)

  /** What this package calls but does not define: `asn1.Marshal`/`asn1.Unmarshal` of a
      token, and the AEAD's `Seal`/`Open` with nil additional data, as functions of
      (key, nonce, input). The AEAD's seal output is the ciphertext followed by the tag. */
  datatype Primitives = Primitives(
    asn1Marshal: Token -> Result<seq<bv8>>,
    asn1Unmarshal: seq<bv8> -> Result<Token>,
    aeadSeal: (seq<bv8>, seq<bv8>, seq<bv8>) -> seq<bv8>,
    aeadOpen: (seq<bv8>, seq<bv8>, seq<bv8>) -> Result<seq<bv8>>)

  /** The AEAD adds exactly a tag to its input, and opening with the same key and nonce
      gives the input back. */
  ghost predicate AeadCorrect(p: Primitives)
  {
    forall key, nonce, pt ::
      |key| == KeySize && |nonce| == NonceSize ==>
        |p.aeadSeal(key, nonce, pt)| == |pt| + TagSize &&
        p.aeadOpen(key, nonce, p.aeadSeal(key, nonce, pt)) == Success(pt)
  }

  /** ASN.1 reads back every token it writes. */
  ghost predicate Asn1RoundTrips(p: Primitives)
  {
    forall t :: p.asn1Marshal(t).Success? ==> p.asn1Unmarshal(p.asn1Marshal(t).value) == Success(t)
  }

  /** The declared plaintext size: exactly the bytes that hold a 64-bit timestamp. */
  function PlaintextSize(t: Token): (n: nat)
    ensures BigEndian.Pow256(n) == TwoTo64
  {
    BigEndian.Pow256Eight();
    8
  }

  /** The declared ciphertext size: nonce and tag around the plaintext, 36 bytes for
      every token whatever its additional data. */
  function CiphertextSize(t: Token): (n: nat)
    ensures n == NonceSize + PlaintextSize(t) + TagSize
    ensures n == 36
  {
    PlaintextSize(t) + Overhead
  }

  /** The instant, in nanoseconds, at which the token stops being valid. */
  function ExpirationTime(t: Token): (instant: int)
    ensures instant == t.expirationTimestamp * GoTime.NanosPerMilli
  {
    GoTime.FromMillis(t.expirationTimestamp)
  }

  /** Builds a token expiring at `exp` (its `UnixNano` reading). The source panics when
      the variadic additional data is given more than once, so that is excluded here;
      none means empty additional data. */
  function NewWithTime(exp: int64, adata: seq<seq<bv8>>): (t: Token)
    requires |adata| <= 1
    ensures t.additionalData == if |adata| == 1 then adata[0] else []
    ensures exp >= 0 ==> ExpirationTime(t) <= exp < ExpirationTime(t) + GoTime.NanosPerMilli
    ensures exp < 0 ==> ExpirationTime(t) - GoTime.NanosPerMilli < exp <= ExpirationTime(t)
  {
    var t := Token(GoTime.ToMillis(exp), []);
    if |adata| == 1 then t.(additionalData := adata[0]) else t
  }

  /** Builds a token that expires `d` nanoseconds after `now`. */
  function NewWithDuration(now: int64, d: int64, adata: seq<seq<bv8>>): (t: Token)
    requires |adata| <= 1
    requires -TwoTo63 <= now + d < TwoTo63
    ensures t == NewWithTime(now + d, adata)
  {
    NewWithTime(now + d, adata)
  }

  /** A token is valid strictly before its expiration instant. */
  function IsValid(t: Token, now: int): (b: bool)
    ensures b <==> now < t.expirationTimestamp * GoTime.NanosPerMilli
  {
    now < ExpirationTime(t)
  }

  /** The output of `Seal` once the nonce has been drawn: the nonce followed by the
      AEAD output over the ASN.1 form of the token. */
  function SealWithNonce(p: Primitives, t: Token, key: seq<bv8>, nonce: seq<bv8>): (r: Result<seq<bv8>>)
    requires |nonce| == NonceSize
    ensures p.asn1Marshal(t).Failure? ==> r == Failure(p.asn1Marshal(t).error)
    ensures p.asn1Marshal(t).Success? && |key| != KeySize ==> r == Failure(ErrBadKeyLength)
    ensures r.Success? <==> p.asn1Marshal(t).Success? && |key| == KeySize
    ensures r.Success? ==> |r.value| >= NonceSize && r.value[..NonceSize] == nonce
    ensures r.Success? ==> |r.value| >= NonceSize && r.value[NonceSize..] == p.aeadSeal(key, nonce, p.asn1Marshal(t).value)
  {
    var mt := p.asn1Marshal(t);
    if mt.Failure? then
      Failure(mt.error)
    else if |key| != KeySize then
      Failure(ErrBadKeyLength)
    else
      Success(nonce + p.aeadSeal(key, nonce, mt.value))
  }

  /** Marshals the token, checks the key, reads a nonce from the random source (here the
      finite byte stream `entropy`) into a fresh buffer, and appends the AEAD output. */
  method Seal(p: Primitives, t: Token, key: seq<bv8>, entropy: seq<bv8>) returns (r: Result<seq<bv8>>)
    ensures |entropy| >= NonceSize ==> r == SealWithNonce(p, t, key, entropy[..NonceSize])
    ensures |entropy| < NonceSize ==> r.Failure?
    ensures p.asn1Marshal(t).Failure? ==> r == Failure(p.asn1Marshal(t).error)
    ensures p.asn1Marshal(t).Success? && |key| != KeySize ==> r == Failure(ErrBadKeyLength)
    ensures |entropy| < NonceSize && p.asn1Marshal(t).Success? && |key| == KeySize ==>
      r == Failure(if |entropy| == 0 then ErrEOF else ErrUnexpectedEOF)
  {
    var mt := p.asn1Marshal(t);
    if mt.Failure? {
      return Failure(mt.error);
    }
    if |key| != KeySize {
      return Failure(ErrBadKeyLength);
    }
    var nonce := new bv8[NonceSize];
    var n := 0;
    while n < NonceSize && n < |entropy|
      invariant 0 <= n <= NonceSize && n <= |entropy|
      invariant nonce[..n] == entropy[..n]
    {
      nonce[n] := entropy[n];
      n := n + 1;
    }
    if n < NonceSize {
      return Failure(if n == 0 then ErrEOF else ErrUnexpectedEOF);
    }
    assert nonce[..] == entropy[..NonceSize];
    r := Success(nonce[..] + p.aeadSeal(key, nonce[..], mt.value));
  }

  /** Checks the key, refuses input too short to hold a nonce, opens the rest under the
      leading nonce, and reads the token from the plaintext. Errors pass through. */
  function Open(p: Primitives, ct: seq<bv8>, key: seq<bv8>): (r: Result<Token>)
    ensures |key| != KeySize ==> r == Failure(ErrBadKeyLength)
    ensures |key| == KeySize && |ct| < NonceSize ==> r == Failure(ErrInvalidSize)
    ensures |key| == KeySize && |ct| >= NonceSize && p.aeadOpen(key, ct[..NonceSize], ct[NonceSize..]).Failure? ==>
      r == Failure(p.aeadOpen(key, ct[..NonceSize], ct[NonceSize..]).error)
    ensures |key| == KeySize && |ct| >= NonceSize && p.aeadOpen(key, ct[..NonceSize], ct[NonceSize..]).Success? ==>
      r == p.asn1Unmarshal(p.aeadOpen(key, ct[..NonceSize], ct[NonceSize..]).value)
  {
    if |key| != KeySize then
      Failure(ErrBadKeyLength)
    else if |ct| < NonceSize then
      Failure(ErrInvalidSize)
    else
      var mt := p.aeadOpen(key, ct[..NonceSize], ct[NonceSize..]);
      if mt.Failure? then Failure(mt.error) else p.asn1Unmarshal(mt.value)
  }

  /** Opens the token and checks its expiry: an `Open` error comes back alone; an
      expired token comes back together with `ErrExpired`; a valid one without error. */
  function Verify(p: Primitives, ct: seq<bv8>, key: seq<bv8>, now: int): (r: Reply<Token>)
    ensures Open(p, ct, key).Failure? ==> r == Reply(None, Some(Open(p, ct, key).error))
    ensures Open(p, ct, key).Success? ==> r.token == Some(Open(p, ct, key).value)
    ensures Open(p, ct, key).Success? ==> (r.err == None <==> IsValid(Open(p, ct, key).value, now))
    ensures r.token.Some? && r.err.Some? ==> r.err == Some(ErrExpired)
  {
    match Open(p, ct, key)
    case Failure(e) => Reply(None, Some(e))
    case Success(tt) =>
      if !IsValid(tt, now) then Reply(Some(tt), Some(ErrExpired)) else Reply(Some(tt), None)
  }

  /** A sealed token is exactly `Overhead` bytes longer than its ASN.1 form. */
  lemma SealedLength(p: Primitives, t: Token, key: seq<bv8>, nonce: seq<bv8>)
    requires AeadCorrect(p)
    requires |nonce| == NonceSize
    requires SealWithNonce(p, t, key, nonce).Success?
    ensures |SealWithNonce(p, t, key, nonce).value| == |p.asn1Marshal(t).value| + Overhead
  {
  }

  /** `Open` splits a sealed token where `Seal` joined it, recovering the nonce and the
      AEAD output, and so gives back the sealed token. */
  lemma OpenSealed(p: Primitives, t: Token, key: seq<bv8>, nonce: seq<bv8>)
    requires AeadCorrect(p) && Asn1RoundTrips(p)
    requires |nonce| == NonceSize
    requires SealWithNonce(p, t, key, nonce).Success?
    ensures Open(p, SealWithNonce(p, t, key, nonce).value, key) == Success(t)
  {
  }

  /** Verifying a sealed token gives it back, without error strictly before its
      expiration instant and with `ErrExpired` from then on. */
  lemma VerifySealed(p: Primitives, t: Token, key: seq<bv8>, nonce: seq<bv8>, now: int)
    requires AeadCorrect(p) && Asn1RoundTrips(p)
    requires |nonce| == NonceSize
    requires SealWithNonce(p, t, key, nonce).Success?
    ensures Verify(p, SealWithNonce(p, t, key, nonce).value, key, now) ==
      Reply(Some(t), if now < ExpirationTime(t) then None else Some(ErrExpired))
  {
  }

  /** The scenario of the package's test: a token issued at `start` for 100 ms and
      sealed verifies with its additional data 50 ms later, and 200 ms after issue
      fails with `ErrExpired` while still returning the additional data. */
  lemma IssueSealVerifyScenario(p: Primitives, start: int64, adata: seq<bv8>, key: seq<bv8>, nonce: seq<bv8>)
    requires AeadCorrect(p) && Asn1RoundTrips(p)
    requires |key| == KeySize && |nonce| == NonceSize
    requires -TwoTo63 <= start + 100 * GoTime.NanosPerMilli < TwoTo63
    requires p.asn1Marshal(NewWithDuration(start, 100 * GoTime.NanosPerMilli, [adata])).Success?
    ensures var ct := SealWithNonce(p, NewWithDuration(start, 100 * GoTime.NanosPerMilli, [adata]), key, nonce).value;
      && Verify(p, ct, key, start + 50 * GoTime.NanosPerMilli).err == None
      && Verify(p, ct, key, start + 50 * GoTime.NanosPerMilli).token.value.additionalData == adata
      && Verify(p, ct, key, start + 200 * GoTime.NanosPerMilli).err == Some(ErrExpired)
      && Verify(p, ct, key, start + 200 * GoTime.NanosPerMilli).token.value.additionalData == adata
  {
  }
}

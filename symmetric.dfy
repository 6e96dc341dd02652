/** Tokens sealed with a symmetric locker (package symmetrictoken): a plain token is
    marshalled and sealed under a shared key; verification opens, unmarshals and checks
    expiry, and reports every failure before expiry as one of two fixed errors. */
module SymmetricToken {
  import opened Errors
  import opened GoNumeric
  import GoTime
  import PlainToken
  import opened Lockers

  /** `seal`: hands the locker a plaintext that unmarshals to exactly `t` (the token's
      wire form, which is the only such plaintext) and returns the locker's answer. */
  function Seal(locker: Locker, t: PlainToken.Token, key: seq<bv8>): (r: Result<seq<bv8>>)
    ensures exists pt :: PlainToken.Unmarshal(pt) == Success(t) && r == locker.seal(pt, key)
  {
    var pt := PlainToken.Encoded(t);
    PlainToken.UnmarshalMarshal(t);
    locker.seal(pt, key)
  }

  /** Issues a token expiring at `exp`: a construction error is returned as it is and
      the locker is not called; otherwise the token is sealed. */
  function NewWithTime(locker: Locker, exp: int64, key: seq<bv8>, payload: seq<seq<bv8>>): (r: Result<seq<bv8>>)
    ensures |payload| > 1 ==> r == Failure(ErrPayloadRepeated)
    ensures |payload| <= 1 ==> r == Seal(locker, PlainToken.NewWithTime(exp, payload).value, key)
  {
    match PlainToken.NewWithTime(exp, payload)
    case Failure(e) => Failure(e)
    case Success(t) => Seal(locker, t, key)
  }

  /** Issues a token expiring `d` nanoseconds after `now`. */
  function NewWithDuration(locker: Locker, now: int64, d: int64, key: seq<bv8>, payload: seq<seq<bv8>>): (r: Result<seq<bv8>>)
    requires -TwoTo63 <= now + d < TwoTo63
    ensures r == NewWithTime(locker, now + d, key, payload)
  {
    match PlainToken.NewWithDuration(now, d, payload)
    case Failure(e) => Failure(e)
    case Success(t) => Seal(locker, t, key)
  }

  /** Opens, unmarshals and checks expiry. Any locker failure becomes `ErrDecrypt` and
      any unmarshalling failure `ErrUnmarshal`, both without a token; an expired token is
      returned together with `ErrExpired`; a valid one with no error. */
  function Verify(locker: Locker, ct: seq<bv8>, key: seq<bv8>, now: int): (r: Reply<PlainToken.Token>)
    ensures locker.open(ct, key).Failure? ==> r == Reply(None, Some(ErrDecrypt))
    ensures locker.open(ct, key).Success? && |locker.open(ct, key).value| < PlainToken.TimestampSize ==>
      r == Reply(None, Some(ErrUnmarshal))
    ensures locker.open(ct, key).Success? && |locker.open(ct, key).value| >= PlainToken.TimestampSize ==>
      r.token == Some(PlainToken.Unmarshal(locker.open(ct, key).value).value)
    ensures r.token.Some? ==>
      locker.open(ct, key).Success? &&
      PlainToken.Unmarshal(locker.open(ct, key).value) == Success(r.token.value)
    ensures r.token.Some? ==> (r.err == None <==> now < PlainToken.ExpirationTime(r.token.value))
    ensures r.token.Some? && r.err.Some? ==> r.err == Some(ErrExpired)
  {
    match locker.open(ct, key)
    case Failure(_) => Reply(None, Some(ErrDecrypt))
    case Success(tt) =>
      match PlainToken.Unmarshal(tt)
      case Failure(_) => Reply(None, Some(ErrUnmarshal))
      case Success(tok) =>
        match PlainToken.Verify(tok, now)
        case Some(e) => Reply(Some(tok), Some(e))
        case None => Reply(Some(tok), None)
  }

  /** Verification ends in exactly one of four states: not decrypted, not unmarshalled,
      expired with the token, or valid. */
  lemma VerifyOutcomes(locker: Locker, ct: seq<bv8>, key: seq<bv8>, now: int)
    ensures var r := Verify(locker, ct, key, now);
      || r == Reply(None, Some(ErrDecrypt))
      || r == Reply(None, Some(ErrUnmarshal))
      || (r.token.Some? && r.err == Some(ErrExpired))
      || (r.token.Some? && r.err == None)
  {
  }

  /** With a locker that opens what it seals under the same key, a issued token verifies
      to the issued token itself: without error strictly before its expiration instant,
      with `ErrExpired` (and still the token) from then on. */
  lemma IssueThenVerify(locker: Locker, key: seq<bv8>, exp: int64, payload: seq<seq<bv8>>, now: int)
    requires OpensSealed(locker, key, key)
    requires NewWithTime(locker, exp, key, payload).Success?
    ensures |payload| <= 1
    ensures var t := PlainToken.NewWithTime(exp, payload).value;
      Verify(locker, NewWithTime(locker, exp, key, payload).value, key, now) ==
        Reply(Some(t), if now < PlainToken.ExpirationTime(t) then None else Some(ErrExpired))
  {
  }

  /** The package's test: a token issued for 100 ms verifies with its payload 50 ms
      later, and 200 ms after issue fails while still returning the payload. */
  lemma CurrentTokenScenario(locker: Locker, key: seq<bv8>, start: int64, payload: seq<bv8>)
    requires OpensSealed(locker, key, key)
    requires -TwoTo63 <= start + 100 * GoTime.NanosPerMilli < TwoTo63
    requires NewWithDuration(locker, start, 100 * GoTime.NanosPerMilli, key, [payload]).Success?
    ensures var ct := NewWithDuration(locker, start, 100 * GoTime.NanosPerMilli, key, [payload]).value;
      && Verify(locker, ct, key, start + 50 * GoTime.NanosPerMilli).err == None
      && Verify(locker, ct, key, start + 50 * GoTime.NanosPerMilli).token.value.payload == payload
      && Verify(locker, ct, key, start + 200 * GoTime.NanosPerMilli).err.Some?
      && Verify(locker, ct, key, start + 200 * GoTime.NanosPerMilli).token.value.payload == payload
  {
  }
}

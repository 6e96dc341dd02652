/** Tokens sealed with an asymmetric locker (package asymmetrictoken): a plain token is
    marshalled and sealed under one key of a pair and opened with the other;
    verification opens, unmarshals and checks expiry, passing every error on unchanged. */
module AsymmetricToken {
  import opened Errors
  import opened GoNumeric
  import GoTime
  import PlainToken
  import opened Lockers

  /** Hands the locker a plaintext that unmarshals to exactly `t` (the token's wire
      form, which is the only such plaintext) and returns the locker's answer. */
  function Seal(locker: Locker, t: PlainToken.Token, key: seq<bv8>): (r: Result<seq<bv8>>)
    ensures exists pt :: PlainToken.Unmarshal(pt) == Success(t) && r == locker.seal(pt, key)
  {
    var pt := PlainToken.Encoded(t);
    PlainToken.UnmarshalMarshal(t);
    locker.seal(pt, key)
  }

  /** Issues a token expiring at `exp`: a construction error is returned as it is and
      the locker is not called; otherwise the token is sealed. */
  function NewWithTime(locker: Locker, exp: int64, key: seq<bv8>, payload: seq<seq<bv8>>): (r: Result<seq<bv8>>)
    ensures |payload| > 1 ==> r == Failure(ErrPayloadRepeated)
    ensures |payload| <= 1 ==> r == Seal(locker, PlainToken.NewWithTime(exp, payload).value, key)
  {
    match PlainToken.NewWithTime(exp, payload)
    case Failure(e) => Failure(e)
    case Success(t) => Seal(locker, t, key)
  }

  /** Issues a token expiring `d` nanoseconds after `now`. */
  function NewWithDuration(locker: Locker, now: int64, d: int64, key: seq<bv8>, payload: seq<seq<bv8>>): (r: Result<seq<bv8>>)
    requires -TwoTo63 <= now + d < TwoTo63
    ensures r == NewWithTime(locker, now + d, key, payload)
  {
    match PlainToken.NewWithDuration(now, d, payload)
    case Failure(e) => Failure(e)
    case Success(t) => Seal(locker, t, key)
  }

  /** Opens, unmarshals and checks expiry. A locker error and an unmarshalling error are
      returned unchanged and without a token; an expired token is returned together with
      `ErrExpired`; a valid one with no error. */
  function Verify(locker: Locker, ct: seq<bv8>, key: seq<bv8>, now: int): (r: Reply<PlainToken.Token>)
    ensures locker.open(ct, key).Failure? ==> r == Reply(None, Some(locker.open(ct, key).error))
    ensures locker.open(ct, key).Success? && |locker.open(ct, key).value| < PlainToken.TimestampSize ==>
      r == Reply(None, Some(ErrInvalidDataLength))
    ensures locker.open(ct, key).Success? && |locker.open(ct, key).value| >= PlainToken.TimestampSize ==>
      r.token == Some(PlainToken.Unmarshal(locker.open(ct, key).value).value)
    ensures r.token.Some? ==>
      locker.open(ct, key).Success? &&
      PlainToken.Unmarshal(locker.open(ct, key).value) == Success(r.token.value)
    ensures r.token.Some? ==> (r.err == None <==> now < PlainToken.ExpirationTime(r.token.value))
    ensures r.token.Some? && r.err.Some? ==> r.err == Some(ErrExpired)
  {
    match locker.open(ct, key)
    case Failure(e) => Reply(None, Some(e))
    case Success(tt) =>
      match PlainToken.Unmarshal(tt)
      case Failure(e) => Reply(None, Some(e))
      case Success(tok) =>
        match PlainToken.Verify(tok, now)
        case Some(e) => Reply(Some(tok), Some(e))
        case None => Reply(Some(tok), None)
  }

  /** With a key pair whose opening half opens what the sealing half seals, an issued
      token verifies to the issued token itself: without error strictly before its
      expiration instant, with `ErrExpired` (and still the token) from then on. */
  lemma IssueThenVerify(locker: Locker, sk: seq<bv8>, pk: seq<bv8>, exp: int64, payload: seq<seq<bv8>>, now: int)
    requires OpensSealed(locker, sk, pk)
    requires NewWithTime(locker, exp, sk, payload).Success?
    ensures |payload| <= 1
    ensures var t := PlainToken.NewWithTime(exp, payload).value;
      Verify(locker, NewWithTime(locker, exp, sk, payload).value, pk, now) ==
        Reply(Some(t), if now < PlainToken.ExpirationTime(t) then None else Some(ErrExpired))
  {
  }

  /** A token opened with a key that does not match the sealing key is rejected with
      the locker's own error and no token. */
  lemma WrongKeyRejected(locker: Locker, sk: seq<bv8>, badpk: seq<bv8>, exp: int64, payload: seq<seq<bv8>>, now: int)
    requires RejectsSealed(locker, sk, badpk)
    requires NewWithTime(locker, exp, sk, payload).Success?
    ensures var ct := NewWithTime(locker, exp, sk, payload).value;
      locker.open(ct, badpk).Failure? &&
      Verify(locker, ct, badpk, now) == Reply(None, Some(locker.open(ct, badpk).error))
  {
  }

  /** The package's test: a token issued for 100 ms under `sk` verifies under `pk` with
      its payload 50 ms later, fails under a mismatched key, and 200 ms after issue
      fails under `pk` while still returning the payload. */
  lemma CurrentTokenScenario(locker: Locker, sk: seq<bv8>, pk: seq<bv8>, badpk: seq<bv8>, start: int64, payload: seq<bv8>)
    requires OpensSealed(locker, sk, pk) && RejectsSealed(locker, sk, badpk)
    requires -TwoTo63 <= start + 100 * GoTime.NanosPerMilli < TwoTo63
    requires NewWithDuration(locker, start, 100 * GoTime.NanosPerMilli, sk, [payload]).Success?
    ensures var ct := NewWithDuration(locker, start, 100 * GoTime.NanosPerMilli, sk, [payload]).value;
      && Verify(locker, ct, pk, start + 50 * GoTime.NanosPerMilli).err == None
      && Verify(locker, ct, pk, start + 50 * GoTime.NanosPerMilli).token.value.payload == payload
      && Verify(locker, ct, badpk, start + 50 * GoTime.NanosPerMilli).err.Some?
      && Verify(locker, ct, pk, start + 200 * GoTime.NanosPerMilli).err.Some?
      && Verify(locker, ct, pk, start + 200 * GoTime.NanosPerMilli).token.value.payload == payload
  {
  }
}

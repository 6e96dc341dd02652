/** The plain expiring token (package plaintoken): an expiration timestamp in
    milliseconds and an opaque payload, their fixed binary layout, and the expiry rule. */
module PlainToken {
  import opened Errors
  import opened GoNumeric
  import GoTime
  import BigEndian

  /** Width of the big-endian timestamp that starts every marshalled token. */
  const TimestampSize := 8

  /** `ExpirationTimestamp` counts milliseconds since the Unix epoch. */
  datatype Token = Token(expirationTimestamp: int64, payload: seq<bv8>)

  /** The instant, in nanoseconds, at which the token stops being valid. */
  function ExpirationTime(t: Token): (instant: int)
    ensures instant == t.expirationTimestamp * GoTime.NanosPerMilli
  {
    GoTime.FromMillis(t.expirationTimestamp)
  }

  /** Builds a token expiring at `exp` (given as its `UnixNano` reading). The variadic
      payload argument is the sequence `payload`: more than one is refused, none means
      an empty payload. The timestamp is `exp` in milliseconds, rounded toward zero. */
  function NewWithTime(exp: int64, payload: seq<seq<bv8>>): (r: Result<Token>)
    ensures r.Failure? <==> |payload| > 1
    ensures r.Failure? ==> r.error == ErrPayloadRepeated
    ensures r.Success? ==> r.value.payload == if |payload| == 1 then payload[0] else []
    ensures r.Success? && exp >= 0 ==>
      ExpirationTime(r.value) <= exp < ExpirationTime(r.value) + GoTime.NanosPerMilli
    ensures r.Success? && exp < 0 ==>
      ExpirationTime(r.value) - GoTime.NanosPerMilli < exp <= ExpirationTime(r.value)
  {
    if |payload| > 1 then
      Failure(ErrPayloadRepeated)
    else
      var t := Token(GoTime.ToMillis(exp), []);
      if |payload| == 1 then Success(t.(payload := payload[0])) else Success(t)
  }

  /** Builds a token that expires `d` nanoseconds after `now`. */
  function NewWithDuration(now: int64, d: int64, payload: seq<seq<bv8>>): (r: Result<Token>)
    requires -TwoTo63 <= now + d < TwoTo63
    ensures r == NewWithTime(now + d, payload)
  {
    NewWithTime(now + d, payload)
  }

  /** `ErrExpired` unless `now` is strictly before the expiration instant. */
  function Verify(t: Token, now: int): (r: Option<Error>)
    ensures r == None <==> now < ExpirationTime(t)
    ensures r != None ==> r == Some(ErrExpired)
  {
    if !(now < ExpirationTime(t)) then Some(ErrExpired) else None
  }

  /** A token is already expired at its exact expiration instant, and valid one
      nanosecond before it. */
  lemma ExpiredAtExpirationTime(t: Token)
    ensures Verify(t, ExpirationTime(t)) == Some(ErrExpired)
    ensures Verify(t, ExpirationTime(t) - 1) == None
  {
  }

  /** Once expired, a token stays expired. */
  lemma ExpiryIsMonotonic(t: Token, now: int, later: int)
    requires now <= later
    ensures Verify(t, now).Some? ==> Verify(t, later) == Some(ErrExpired)
  {
  }

  /** A token made for instant `exp` is valid a millisecond before `exp` and expired a
      millisecond after it; for instants not before the epoch it expires at `exp` at the
      latest, for earlier instants it is still valid just before `exp`. */
  lemma IssuedTokenExpiry(exp: int64, payload: seq<seq<bv8>>, now: int)
    requires |payload| <= 1
    ensures now + GoTime.NanosPerMilli <= exp ==> Verify(NewWithTime(exp, payload).value, now) == None
    ensures now >= exp + GoTime.NanosPerMilli ==> Verify(NewWithTime(exp, payload).value, now) == Some(ErrExpired)
    ensures exp >= 0 && now >= exp ==> Verify(NewWithTime(exp, payload).value, now) == Some(ErrExpired)
    ensures exp < 0 && now < exp ==> Verify(NewWithTime(exp, payload).value, now) == None
  {
  }

  /** The wire form of a token: the timestamp as eight big-endian bytes of its two's
      complement bits, then the payload verbatim. */
  function Encoded(t: Token): (s: seq<bv8>)
    ensures |s| == TimestampSize + |t.payload|
    ensures s[TimestampSize..] == t.payload
    ensures BigEndian.Decode(s[..TimestampSize]) == ToUint64(t.expirationTimestamp)
  {
    var header := BigEndian.Encode(TimestampSize, ToUint64(t.expirationTimestamp));
    BigEndian.Pow256Eight();
    BigEndian.DecodeEncode(TimestampSize, ToUint64(t.expirationTimestamp));
    assert (header + t.payload)[..TimestampSize] == header;
    header + t.payload
  }

  /** Allocates the output and fills it in place: the timestamp with `PutUint64`, then
      the payload copied behind it. It never fails. */
  method Marshal(t: Token) returns (r: Result<seq<bv8>>)
    ensures r == Success(Encoded(t))
  {
    var ret := new bv8[TimestampSize + |t.payload|];
    var header := BigEndian.Encode(TimestampSize, ToUint64(t.expirationTimestamp));
    BigEndian.PutUint64(ret, ToUint64(t.expirationTimestamp));
    var i := 0;
    while i < |t.payload|
      invariant 0 <= i <= |t.payload|
      invariant ret[..TimestampSize] == header
      invariant ret[TimestampSize..TimestampSize + i] == t.payload[..i]
    {
      ret[TimestampSize + i] := t.payload[i];
      i := i + 1;
    }
    assert ret[TimestampSize..] == t.payload;
    assert ret[..] == header + t.payload;
    r := Success(ret[..]);
  }

  /** Reads a token back from its wire form: at least eight bytes are needed; the first
      eight are the timestamp's bits, everything after them is the payload. */
  function Unmarshal(mt: seq<bv8>): (r: Result<Token>)
    ensures r.Failure? <==> |mt| < TimestampSize
    ensures r.Failure? ==> r.error == ErrInvalidDataLength
    ensures r.Success? ==> r.value.payload == mt[TimestampSize..]
    ensures r.Success? ==> ToUint64(r.value.expirationTimestamp) == BigEndian.Decode(mt[..TimestampSize])
  {
    if |mt| < TimestampSize then
      Failure(ErrInvalidDataLength)
    else
      BigEndian.Pow256Eight();
      Success(Token(ToInt64(BigEndian.Decode(mt[..TimestampSize])), mt[TimestampSize..]))
  }

  /** Unmarshalling a marshalled token gives back the same timestamp and payload,
      including an empty payload. */
  lemma UnmarshalMarshal(t: Token)
    ensures Unmarshal(Encoded(t)) == Success(t)
  {
  }

  /** Every byte sequence of at least eight bytes is the wire form of the token
      that `Unmarshal` reads from it. */
  lemma MarshalUnmarshal(b: seq<bv8>)
    requires |b| >= TimestampSize
    ensures Unmarshal(b).Success? && Encoded(Unmarshal(b).value) == b
  {
    var t := Unmarshal(b).value;
    BigEndian.EncodeDecode(b[..TimestampSize]);
    assert b == b[..TimestampSize] + b[TimestampSize..];
  }

  /** A token has only one wire form: whatever unmarshals to `t` is `t`'s encoding. */
  lemma UnmarshalInjective(b: seq<bv8>, t: Token)
    requires Unmarshal(b) == Success(t)
    ensures b == Encoded(t)
  {
    MarshalUnmarshal(b);
  }

  /** Two's complement on the wire: the top bit of the first byte is set exactly when
      the timestamp is negative. */
  lemma {:induction false} SignBitOnWire(t: Token)
    ensures Encoded(t)[0] >= 0x80 <==> t.expirationTimestamp < 0
  {
    var header := Encoded(t)[..TimestampSize];
    var u := ToUint64(t.expirationTimestamp);
    var top := header[0] as nat;
    var rest := BigEndian.Decode(header[1..]);
    assert top == Encoded(t)[0] as nat;
    assert Encoded(t)[0] >= 0x80 <==> top >= 128;
    BigEndian.DecodeFront(header);
    assert BigEndian.Pow256(7) == 0x100_0000_0000_0000 by {
      assert BigEndian.Pow256(3) == 0x100_0000;
    }
    assert u == top * 0x100_0000_0000_0000 + rest;
    assert rest < 0x100_0000_0000_0000;
  }
}

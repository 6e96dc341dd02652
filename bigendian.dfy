/** Big-endian byte encoding of unsigned integers, as `encoding/binary`'s `BigEndian`
    provides it: the most significant byte comes first. */
module BigEndian {
  import opened GoNumeric

  /** 256 to the power `n`: the number of values `n` bytes can hold. */
  function Pow256(n: nat): (p: nat)
    ensures p > 0
  {
    if n == 0 then 1 else 256 * Pow256(n - 1)
  }

  /** Eight bytes hold exactly the uint64 values. */
  lemma Pow256Eight()
    ensures Pow256(8) == TwoTo64
  {
    assert Pow256(2) == 0x1_0000;
    assert Pow256(4) == 0x1_0000_0000 by {
      assert Pow256(3) == 0x100_0000;
    }
    assert Pow256(6) == 0x1_0000_0000_0000 by {
      assert Pow256(5) == 0x100_0000_0000;
    }
    assert Pow256(7) == 0x100_0000_0000_0000;
  }

  /** The `n` low-order bytes of `v`, most significant first. */
  function Encode(n: nat, v: nat): (s: seq<bv8>)
    ensures |s| == n
  {
    if n == 0 then [] else Encode(n - 1, v / 256) + [(v % 256) as bv8]
  }

  /** The unsigned integer whose big-endian bytes are `s` (`binary.BigEndian.Uint64`
      when `|s| == 8`). */
  function Decode(s: seq<bv8>): (v: nat)
    ensures v < Pow256(|s|)
  {
    if s == [] then 0 else Decode(s[..|s| - 1]) * 256 + s[|s| - 1] as nat
  }

  /** Decoding the encoding of a value that fits gives the value back. */
  lemma {:induction false} DecodeEncode(n: nat, v: nat)
    requires v < Pow256(n)
    ensures Decode(Encode(n, v)) == v
  {
    if n > 0 {
      var s := Encode(n, v);
      var low := (v % 256) as bv8;
      assert s == Encode(n - 1, v / 256) + [low];
      assert s[..n - 1] == Encode(n - 1, v / 256);
      assert low as nat == v % 256;
      assert v / 256 < Pow256(n - 1);
      DecodeEncode(n - 1, v / 256);
      assert Decode(s) == Decode(s[..n - 1]) * 256 + low as nat;
    }
  }

  /** Encoding a decoded byte sequence over its own length gives the bytes back. */
  lemma {:induction false} EncodeDecode(s: seq<bv8>)
    ensures Encode(|s|, Decode(s)) == s
  {
    if s != [] {
      var n := |s|;
      var init := s[..n - 1];
      var v := Decode(s);
      assert v / 256 == Decode(init);
      assert v % 256 == s[n - 1] as nat;
      EncodeDecode(init);
      assert s == init + [s[n - 1]];
    }
  }

  /** The decoded value reads the first byte as the most significant digit. */
  lemma {:induction false} DecodeFront(s: seq<bv8>)
    requires |s| > 0
    ensures Decode(s) == s[0] as nat * Pow256(|s| - 1) + Decode(s[1..])
  {
    var n := |s|;
    if n == 1 {
      assert s[1..] == [] && s[..0] == [];
    } else {
      var init := s[..n - 1];
      var tail := s[1..];
      DecodeFront(init);
      var d := s[0] as nat;
      var p := Pow256(n - 2);
      var a := Decode(init[1..]);
      var last := s[n - 1] as nat;
      assert init[1..] == tail[..|tail| - 1];
      assert Decode(tail) == a * 256 + last;
      assert Decode(init) == d * p + a;
      DecodeFrontStep(s, d, p, a, last);
    }
  }

  /** The inductive step of `DecodeFront`, on the digits already named. */
  lemma DecodeFrontStep(s: seq<bv8>, d: nat, p: nat, a: nat, last: nat)
    requires |s| > 1
    requires d == s[0] as nat && p == Pow256(|s| - 2) && last == s[|s| - 1] as nat
    requires Decode(s[..|s| - 1]) == d * p + a
    requires Decode(s[1..]) == a * 256 + last
    ensures Decode(s) == d * Pow256(|s| - 1) + Decode(s[1..])
  {
    var q := Pow256(|s| - 1);
    assert q == 256 * p;
    var x := Decode(s);
    assert x == Decode(s[..|s| - 1]) * 256 + last;
    Regroup(d, p, a, last);
  }

  /** Shifting a two-digit base-256 reading one digit left. */
  lemma Regroup(d: int, p: int, a: int, last: int)
    ensures (d * p + a) * 256 + last == d * (256 * p) + (a * 256 + last)
  {
  }

  /** `binary.BigEndian.PutUint64(b, v)`: writes the eight bytes of `v` into `b[0..8]`,
      the least significant into `b[7]`, and leaves the rest of `b` alone. */
  method PutUint64(b: array<bv8>, v: uint64)
    requires b.Length >= 8
    modifies b
    ensures b[..8] == Encode(8, v)
    ensures b[8..] == old(b[8..])
  {
    var i := 8;
    var w: nat := v;
    while i > 0
      invariant 0 <= i <= 8
      invariant Encode(8, v) == Encode(i, w) + b[i..8]
      invariant b[8..] == old(b[8..])
    {
      i := i - 1;
      b[i] := (w % 256) as bv8;
      w := w / 256;
    }
  }
}

/** Binary form of a validator power request (internal/voting/validators.go): the public
    key followed by the power as a big-endian 64-bit pattern. */
module PowerRequest {
  import opened Wrappers
  import opened TableModel

  datatype UpdatePowerRequest = UpdatePowerRequest(pubKey: Bytes, power: int)

  function Pow256(n: nat): nat
  {
    if n == 0 then 1 else 256 * Pow256(n - 1)
  }

  function ToBigEndian(x: nat, n: nat): (s: Bytes)
    ensures |s| == n
  {
    if n == 0 then [] else ToBigEndian(x / 256, n - 1) + [(x % 256) as byte]
  }

  function FromBigEndian(s: Bytes): (x: nat)
    ensures x < Pow256(|s|)
  {
    if s == [] then 0 else FromBigEndian(s[..|s| - 1]) * 256 + s[|s| - 1] as int
  }

  /** Byte `i` from the front holds the digit of weight 256 to the power `n - 1 - i`. */
  lemma {:induction false} BigEndianDigits(x: nat, n: nat, i: nat)
    requires i < n
    ensures 0 < Pow256(n - 1 - i) && ToBigEndian(x, n)[i] as int == x / Pow256(n - 1 - i) % 256
  {
    if i == n - 1 {
      assert Pow256(0) == 1;
    } else {
      BigEndianDigits(x / 256, n - 1, i);
      Pow256Positive(n - 2 - i);
      DivTwice(x, Pow256(n - 2 - i));
    }
  }

  lemma DivTwice(x: nat, b: nat)
    requires 0 < b
    ensures x / 256 / b == x / (256 * b)
  {
    var q := x / 256;
    var s, u := q / b, q % b;
    assert q == b * s + u;
    assert 256 * b * s == 256 * (b * s);
    Quotient(x, 256 * b, s, 256 * u + x % 256);
  }

  lemma Quotient(x: nat, d: nat, q: nat, r: nat)
    requires 0 < d && r < d && x == d * q + r
    ensures x / d == q
  {
    var k := x / d;
    assert d * k <= x < d * k + d;
    Factors(d, k - q);
    assert d * (k - q) == d * k - d * q;
  }

  /** A multiple of `d` strictly between `-d` and `d` is zero. */
  lemma Factors(d: int, e: int)
    requires 0 < d
    ensures -d < d * e < d ==> e == 0
  {
    if e >= 1 {
      assert d * e >= d;
    } else if e <= -1 {
      assert d * e <= -d;
    }
  }

  lemma {:induction false} Pow256Positive(n: nat)
    ensures 0 < Pow256(n)
  {
    if n != 0 {
      Pow256Positive(n - 1);
    }
  }

  function MarshalBinary(r: UpdatePowerRequest): Bytes
  {
    r.pubKey + ToBigEndian(r.power % TWO_TO_64, 8)
  }

  function UnmarshalBinary(data: Bytes): Option<UpdatePowerRequest>
  {
    if |data| < 8 then None
    else Some(UpdatePowerRequest(data[..|data| - 8], ToInt64(FromBigEndian(data[|data| - 8..]))))
  }

  lemma {:induction false} FromToBigEndian(x: nat, n: nat)
    requires x < Pow256(n)
    ensures FromBigEndian(ToBigEndian(x, n)) == x
  {
    if n != 0 {
      FromToBigEndian(x / 256, n - 1);
      assert ToBigEndian(x, n)[..n - 1] == ToBigEndian(x / 256, n - 1);
    }
  }

  lemma {:induction false} ToFromBigEndian(s: Bytes)
    ensures ToBigEndian(FromBigEndian(s), |s|) == s
  {
    if s != [] {
      ToFromBigEndian(s[..|s| - 1]);
      assert s == s[..|s| - 1] + [s[|s| - 1]];
    }
  }

  /** The wire format: the key, then the power's 64-bit pattern with its highest byte first. */
  lemma MarshalFormat(r: UpdatePowerRequest, i: nat)
    requires i < 8
    ensures |MarshalBinary(r)| == |r.pubKey| + 8 && r.pubKey <= MarshalBinary(r)
    ensures 0 < Pow256(7 - i) && MarshalBinary(r)[|r.pubKey| + i] as int == r.power % TWO_TO_64 / Pow256(7 - i) % 256
  {
    BigEndianDigits(r.power % TWO_TO_64, 8, i);
  }

  /** Decoding undoes encoding for every key and every int64 power. */
  lemma MarshalRoundTrip(r: UpdatePowerRequest)
    requires -INT64_MAX - 1 <= r.power <= INT64_MAX
    ensures UnmarshalBinary(MarshalBinary(r)) == Some(r)
  {
    var m := MarshalBinary(r);
    assert m[..|m| - 8] == r.pubKey;
    assert m[|m| - 8..] == ToBigEndian(r.power % TWO_TO_64, 8);
    assert Pow256(8) == TWO_TO_64;
    FromToBigEndian(r.power % TWO_TO_64, 8);
  }

  /** Encoding undoes decoding: exactly the strings of at least 8 bytes are encodings. */
  lemma UnmarshalRoundTrip(data: Bytes)
    ensures UnmarshalBinary(data).Some? <==> |data| >= 8
    ensures |data| >= 8 ==> MarshalBinary(UnmarshalBinary(data).value) == data
  {
    if |data| >= 8 {
      var tail := data[|data| - 8..];
      assert Pow256(8) == TWO_TO_64;
      ToFromBigEndian(tail);
      assert ToInt64(FromBigEndian(tail)) % TWO_TO_64 == FromBigEndian(tail);
      assert data == data[..|data| - 8] + tail;
    }
  }
}

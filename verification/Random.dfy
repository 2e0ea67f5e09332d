/** Random numbers from a range, drawn by reducing random octets. */
module Random {
  import opened NumberTheory
  import opened Bytes
  import opened Results
  import opened BigIntegers

  /** The number drawn from [min, max) when the random octets spell random. */
  function Drawn(min: int, max: int, random: nat): Result<int> {
    if max < min then Err(IllegalRange)
    else if max == min then Err(DivisionByZero)
    else Ok(min + random % (max - min))
  }

  /** Drawing fails exactly for an empty range, and otherwise gives a number of the range. */
  lemma DrawnInRange(min: int, max: int, random: nat)
    ensures Drawn(min, max, random).Ok? <==> min < max
    ensures Drawn(min, max, random).Ok? ==> min <= Drawn(min, max, random).value < max
  {
  }

  /** Every number of the range is drawn for some octets of the length that is asked for. */
  lemma EveryNumberIsDrawn(min: int, max: int, k: int) returns (octets: seq<byte>)
    requires min <= k < max
    ensures |octets| == ByteLen(max - min) + 8 && Drawn(min, max, Value(octets)) == Ok(k)
  {
    var size := ByteLen(max - min);
    PowMonotone(256, size, size + 8);
    octets := Digits(k - min, size + 8);
    DigitsRoundTrip(k - min, size + 8);
    ModSmall(k - min, max - min);
  }

  /** What can be drawn is exactly the range. */
  lemma DrawnIff(min: int, max: int, k: int)
    ensures (exists random :: Drawn(min, max, random) == Ok(k)) <==> min <= k < max
  {
    if min <= k < max {
      ModSmall(k - min, max - min);
      assert Drawn(min, max, k - min) == Ok(k);
    }
  }

  method GetRandomBigInteger(min: BigInteger, max: BigInteger, random: nat) returns (r: Result<BigInteger>)
    ensures r.Ok? ==> fresh(r.value) && Drawn(min.value, max.value, random) == Ok(r.value.value)
    ensures r.Ok? ==> min.value <= r.value.value < max.value
    ensures r.Err? ==> Drawn(min.value, max.value, random) == Err(r.error)
  {
    DrawnInRange(min.value, max.value, random);
    if max.value < min.value { return Err(IllegalRange); }
    var modulus := max.Sub(min);
    var r' := new BigInteger(random);
    var rest :- r'.Mod(modulus);
    rest.Iadd(min);
    return Ok(rest);
  }
}

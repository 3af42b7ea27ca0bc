/**
 * The rate-limit sub-record: a fixed 6-byte layout holding the bit pattern of
 * the requests-per-second float, the burst multiplier and the per-IP switch.
 * The float is only ever reinterpreted (math.Float32bits / Float32frombits),
 * so it is carried here as its 32-bit pattern.
 */
module LimitsCodec {
  import opened Binary

  /** RateLimits; `rps` is the IEEE-754 single-precision bit pattern of RPS. */
  datatype RateLimits = RateLimits(rps: u32, burstMultiplicator: byte, perIP: bool)

  /** encodeLimits: RPS big-endian in bytes 0..4, then the burst byte, then 1 or 0 for PerIP. */
  function EncodeLimits(l: RateLimits): (b: seq<byte>)
    ensures |b| == 6
    ensures Uint32(b, 0) == l.rps
    ensures b[4] == l.burstMultiplicator
    ensures b[5] == (if l.perIP then 1 else 0)
  {
    PutUint32(l.rps) + [l.burstMultiplicator, if l.perIP then 1 else 0]
  }

  /**
   * parsLimit: reads the first six bytes and nothing else; the caller must
   * supply at least six (the function does not check). PerIP is set only by
   * a byte that is exactly 1.
   */
  function ParseLimit(b: seq<byte>): (l: RateLimits)
    requires |b| >= 6
    ensures l.rps == Uint32(b, 0)
    ensures l.burstMultiplicator == b[4]
    ensures l.perIP <==> b[5] == 1
  {
    RateLimits(Uint32(b, 0), b[4], b[5] == 1)
  }

  /** Parsing what encodeLimits wrote gives the record back, RPS bit for bit. */
  lemma ParseEncodeLimits(l: RateLimits)
    ensures ParseLimit(EncodeLimits(l)) == l
  {
  }

  /** Bytes after the sixth never change the parsed record. */
  lemma ParseLimitPrefix(b: seq<byte>)
    requires |b| >= 6
    ensures ParseLimit(b) == ParseLimit(b[..6])
  {
  }

  /**
   * Encoding a parsed record restores the six bytes exactly when the PerIP
   * byte was canonical (0 or 1); any other value comes back as 0.
   */
  lemma EncodeParseLimit(b: seq<byte>)
    requires |b| >= 6
    ensures EncodeLimits(ParseLimit(b)) == b[..6] <==> b[5] <= 1
  {
    PutUint32Of(b, 0);
    var e := EncodeLimits(ParseLimit(b));
    if b[5] <= 1 {
      assert e == b[..4] + [b[4], b[5]];
    } else {
      assert e[5] != b[5];
    }
  }
}

/**
 * Token format version 1 (v1.go).
 *
 * Wire layout written by serialize, offsets counted from the version byte:
 *   0      version (1)
 *   1..5   AppID, big-endian
 *   5..9   TokenID, big-endian
 *   9      1 when IsSubtoken, else 0
 *   10..14 SubtokenID, only when IsSubtoken
 *   next 2 the flag word; bit 0 (the most significant bit) = ExpireAt present
 *   next 4 ExpireAt as 32-bit Unix seconds, only when flag bit 0 is set
 * The text form appends the 32-byte signature. Limits and BindIP are carried
 * in the record but never written or read.
 *
 * The pure functions Encode, Decode and Verifies state what serialize, parse
 * and ValidSignature compute; the class TokenV1 holds the fields that the Go
 * methods update in place and its methods are proved against those functions.
 */
module V1 {
  import opened Wrappers
  import opened Binary
  import Base32

  const Version1: byte := 1

  /** A signature: exactly 32 bytes, like the [32]byte array in the Go struct. */
  type Tag = s: seq<byte> | |s| == 32 witness seq(32, _ => 0)

  /**
   * HMAC-SHA256 keyed by its first argument over its second. Its internals
   * are not modelled: any deterministic function to 32-byte tags will do.
   */
  type Mac = (seq<byte>, seq<byte>) -> Tag

  /** The Limits struct of v1.go; RPS is the bit pattern of its float32. */
  datatype RateLimit = RateLimit(rps: u32, burstMultiplicator: byte)

  /** The value held by a TokenV1; ExpireAt is in Unix seconds. */
  datatype Record = Record(
    appID: u32,
    tokenID: u32,
    isSubtoken: bool,
    subtokenID: u32,
    expireAt: Option<int>,
    limits: Option<RateLimit>,
    bindIP: seq<byte>,
    signature: Tag)

  /** The zero value of the struct. */
  function Zero(): Record { Record(0, 0, false, 0, None, None, [], seq(32, _ => 0)) }

  // ---------------------------------------------------------------- flag bits

  /**
   * uint16(1) << (15 - b): bit 0 is the most significant bit. A negative b,
   * down to math.MinInt64 + 16, shifts by 16 or more, which leaves nothing,
   * so the mask is 0. Bit indices are unbounded here: the run-time panic Go
   * raises when 15 - b overflows to a negative shift count is not modelled.
   */
  function Mask(b: int): bv16
  {
    if 0 <= b <= 15 then (1 as bv16) << (15 - b) else 0
  }

  /**
   * isBitSet: bit b counted from the most significant end; false beyond
   * bit 15; for a negative index (down to math.MinInt64 + 16) the empty mask
   * always matches.
   */
  function IsBitSet(u: bv16, b: int): (r: bool)
    ensures 0 <= b <= 15 ==> (r <==> (u >> (15 - b)) & 1 == 1)
    ensures b > 15 ==> !r
    ensures b < 0 ==> r
  {
    if b > 15 then false
    else
      if b >= 0 then MaskTestsBit(u, b); u & Mask(b) == Mask(b)
      else u & Mask(b) == Mask(b)
  }

  /** The mask of bit b picks out the bit 15 - b places up from the least significant. */
  lemma MaskTestsBit(u: bv16, b: int)
    requires 0 <= b <= 15
    ensures (u & Mask(b) == Mask(b)) <==> (u >> (15 - b)) & 1 == 1
  {
    if b < 8 {
      MaskTestsHighByte(u, b);
    } else {
      MaskTestsLowByte(u, b);
    }
  }

  lemma MaskTestsHighByte(u: bv16, b: int)
    requires 0 <= b < 8
    ensures (u & Mask(b) == Mask(b)) <==> (u >> (15 - b)) & 1 == 1
  {
    if b == 0 {} else if b == 1 {} else if b == 2 {} else if b == 3 {}
    else if b == 4 {} else if b == 5 {} else if b == 6 {} else {}
  }

  lemma MaskTestsLowByte(u: bv16, b: int)
    requires 8 <= b <= 15
    ensures (u & Mask(b) == Mask(b)) <==> (u >> (15 - b)) & 1 == 1
  {
    if b == 8 {} else if b == 9 {} else if b == 10 {} else if b == 11 {}
    else if b == 12 {} else if b == 13 {} else if b == 14 {} else {}
  }

  /** setBit: a no-op beyond bit 15 (and, with its empty mask, below 0). */
  function SetBit(u: bv16, b: int): (r: bv16)
    ensures 0 <= b <= 15 ==> IsBitSet(r, b)
    ensures b > 15 ==> r == u
  {
    if b > 15 then u
    else
      var mask := Mask(b);
      OrSetsMask(u, mask);
      u | mask
  }

  /**
   * With a negative index (down to math.MinInt64 + 16) the mask is empty, so
   * setBit changes nothing either.
   */
  lemma SetBitBelowZero(u: bv16, b: int)
    requires b < 0
    ensures SetBit(u, b) == u
  {
    assert Mask(b) == 0;
  }

  lemma OrSetsMask(u: bv16, m: bv16)
    ensures (u | m) & m == m
  {
  }

  lemma MasksDisjoint(b: int, c: int)
    requires 0 <= b <= 15 && 0 <= c <= 15 && b != c
    ensures Mask(b) & Mask(c) == 0
  {
  }

  lemma OrKeepsDisjointBits(u: bv16, x: bv16, y: bv16)
    requires x & y == 0
    ensures ((u | x) & y == y) == (u & y == y)
  {
  }

  /** Setting one bit leaves every other bit as it was. */
  lemma SetBitKeepsOtherBits(u: bv16, b: int, c: int)
    requires 0 <= c <= 15 && c != b
    ensures IsBitSet(SetBit(u, b), c) == IsBitSet(u, c)
  {
    if 0 <= b <= 15 {
      MasksDisjoint(b, c);
      OrKeepsDisjointBits(u, Mask(b), Mask(c));
    }
  }

  /** Bit 0 of a big-endian flag word is the top bit of its first byte. */
  lemma FlagBit0(b: seq<byte>, i: nat)
    requires i + 2 <= |b|
    ensures IsBitSet(Uint16(b, i), 0) <==> b[i] >= 0x80
  {
    Uint16TopBit(b, i);
    assert Mask(0) == 0x8000;
  }

  /** Setting a bit twice is setting it once. */
  lemma SetBitIdempotent(u: bv16, b: int)
    ensures SetBit(SetBit(u, b), b) == SetBit(u, b)
  {
  }

  /** The flag word serialize writes: bit 0 exactly when an expiry is present. */
  function Flags(r: Record): (f: bv16)
    ensures f == (if r.expireAt.Some? then 0x8000 else 0)
    ensures IsBitSet(f, 0) <==> r.expireAt.Some?
  {
    var flags: bv16 := 0;
    if r.expireAt.Some? then SetBit(flags, 0) else flags
  }

  // ---------------------------------------------------------------- the wire

  /** Where serialize puts the flag word: after the subtoken block. */
  function FlagsOffset(isSubtoken: bool): nat
  {
    if isSubtoken then 14 else 10
  }

  /** serialize: the signed bytes of a token (the signature is not among them). */
  function Encode(r: Record): (b: seq<byte>)
    ensures |b| == 12 + (if r.isSubtoken then 4 else 0) + (if r.expireAt.Some? then 4 else 0)
    ensures b[0] == Version1 && Uint32(b, 1) == r.appID && Uint32(b, 5) == r.tokenID
    ensures b[9] == (if r.isSubtoken then 1 else 0)
    ensures r.isSubtoken ==> Uint32(b, 10) == r.subtokenID
    ensures var f := FlagsOffset(r.isSubtoken);
      b[f] == (if r.expireAt.Some? then 0x80 else 0) && b[f + 1] == 0
    ensures r.expireAt.Some? ==> Uint32(b, FlagsOffset(r.isSubtoken) + 2) == Truncate32(r.expireAt.value)
  {
    var head := [Version1] + PutUint32(r.appID) + PutUint32(r.tokenID) + [if r.isSubtoken then 1 else 0];
    var sub := if r.isSubtoken then PutUint32(r.subtokenID) else [];
    var expiry := if r.expireAt.Some? then PutUint32(Truncate32(r.expireAt.value)) else [];
    head + sub + PutUint16(Flags(r)) + expiry
  }

  /** The fields serialize reads; Limits, BindIP and the signature are not among them. */
  predicate SameWireFields(r: Record, s: Record)
  {
    r.appID == s.appID && r.tokenID == s.tokenID && r.isSubtoken == s.isSubtoken &&
    (r.isSubtoken ==> r.subtokenID == s.subtokenID) &&
    r.expireAt.Some? == s.expireAt.Some? &&
    (r.expireAt.Some? ==> Truncate32(r.expireAt.value) == Truncate32(s.expireAt.value))
  }

  datatype ParseError = InvalidTokenLength(length: nat)

  /** What parse leaves behind: the record as filled in so far, and the error if any. */
  datatype Outcome = Outcome(record: Record, err: Option<ParseError>)

  /**
   * Whether `b` (the bytes after the version byte) holds every block its own
   * presence byte and flag word announce, followed by a 32-byte signature.
   */
  predicate Complete(b: seq<byte>)
  {
    |b| >= 9 &&
    var f := if b[8] == 1 then 13 else 9;
    |b| >= f + 2 &&
    |b| >= f + 2 + (if b[f] >= 0x80 then 4 else 0) + 32
  }

  /** Where parse finds the signature in a complete buffer. */
  function SignatureOffset(b: seq<byte>): (k: nat)
    requires Complete(b)
    ensures k + 32 <= |b|
  {
    var f := if b[8] == 1 then 13 else 9;
    f + 2 + (if b[f] >= 0x80 then 4 else 0)
  }

  /**
   * The expiry parse leaves, whether or not it succeeds: read when the top bit
   * of the flag word is set and its four bytes are there, left as it was
   * otherwise.
   */
  function ExpiryRead(prev: Record, b: seq<byte>): Option<int>
    requires |b| >= 9
  {
    var f := if b[8] == 1 then 13 else 9;
    if f + 6 <= |b| && b[f] >= 0x80 then Some(Uint32(b, f + 2)) else prev.expireAt
  }

  /**
   * parse, applied to a token whose fields are `prev`: each field is written
   * when its bytes have been length-checked, in wire order, and an error stops
   * the filling where it occurs.
   */
  function Decode(prev: Record, b: seq<byte>): (o: Outcome)
    ensures o.err.None? <==> Complete(b)
    ensures o.err.Some? ==> o.err == Some(InvalidTokenLength(|b|))
    ensures |b| < 9 ==> o.record == prev
    ensures |b| >= 9 ==> o.record.appID == Uint32(b, 0) && o.record.tokenID == Uint32(b, 4)
    ensures |b| >= 9 ==> (o.record.isSubtoken <==> b[8] == 1)
    ensures |b| >= 9 ==>
      o.record.subtokenID == (if b[8] == 1 && |b| >= 13 then Uint32(b, 9) else prev.subtokenID)
    ensures |b| >= 9 ==> o.record.expireAt == ExpiryRead(prev, b)
    ensures o.err.Some? ==> o.record.signature == prev.signature
    ensures o.err.None? ==> o.record.signature == b[SignatureOffset(b)..SignatureOffset(b) + 32]
    ensures o.record.limits == prev.limits && o.record.bindIP == prev.bindIP
  {
    if |b| < 9 then Outcome(prev, Some(InvalidTokenLength(|b|)))
    else
      var isSubtoken := b[8] == 1;
      var r1 := prev.(appID := Uint32(b, 0), tokenID := Uint32(b, 4), isSubtoken := isSubtoken);
      if isSubtoken && |b| < 9 + 4 then Outcome(r1, Some(InvalidTokenLength(|b|)))
      else
        var r2 := if isSubtoken then r1.(subtokenID := Uint32(b, 9)) else r1;
        var offset := if isSubtoken then 9 + 4 else 9;
        if |b| < offset + 2 then Outcome(r2, Some(InvalidTokenLength(|b|)))
        else
          var flags := Uint16(b, offset);
          FlagBit0(b, offset);
          var offset := offset + 2;
          if IsBitSet(flags, 0) && |b| < offset + 4 then Outcome(r2, Some(InvalidTokenLength(|b|)))
          else
            var r3 := if IsBitSet(flags, 0) then r2.(expireAt := Some(Uint32(b, offset))) else r2;
            var offset := if IsBitSet(flags, 0) then offset + 4 else offset;
            if |b| < offset + 32 then Outcome(r3, Some(InvalidTokenLength(|b|)))
            else
              var sig := b[offset..offset + 32];
              assert |sig| == 32;
              Outcome(r3.(signature := sig), None)
  }

  /**
   * ValidSignature: the stored tag is the MAC of the record's serialization.
   * Limits and BindIP are not signed: the verdict does not depend on them.
   */
  function Verifies(mac: Mac, secret: seq<byte>, r: Record): (ok: bool)
    ensures ok <==> r.signature == mac(secret, Encode(r.(limits := None, bindIP := [])))
  {
    r.signature == mac(secret, Encode(r))
  }

  /** String1: base 32 of the serialization followed by the signature, trailing `=` removed. */
  function Text(r: Record): (s: string)
    ensures s == [] || s[|s| - 1] != Base32.Pad
  {
    Base32.TrimPadding(Base32.Encode(Encode(r) + r.signature))
  }

  // ---------------------------------------------------------------- the object

  /** TokenV1: the struct whose pointer-receiver methods update it in place. */
  class TokenV1 {
    var AppID: u32
    var TokenID: u32
    var IsSubtoken: bool
    var SubtokenID: u32
    var ExpireAt: Option<int>
    var Limits: Option<RateLimit>
    var BindIP: seq<byte>
    var Signature: Tag

    function View(): Record
      reads this
    {
      Record(AppID, TokenID, IsSubtoken, SubtokenID, ExpireAt, Limits, BindIP, Signature)
    }

    /** NewTokenV1: both identifiers set, everything else zero. */
    constructor (appID: u32, tokenID: u32)
      ensures View() == Zero().(appID := appID, tokenID := tokenID)
    {
      AppID, TokenID := appID, tokenID;
      IsSubtoken, SubtokenID := false, 0;
      ExpireAt, Limits, BindIP := None, None, [];
      Signature := seq(32, _ => 0);
    }

    method WithSubtokenID(id: u32) returns (t: TokenV1)
      modifies this
      ensures t == this
      ensures View() == old(View()).(isSubtoken := true, subtokenID := id)
    {
      IsSubtoken := true;
      SubtokenID := id;
      return this;
    }

    /**
     * WithTTL: expires `duration` nanoseconds after `now`, the Unix time in
     * nanoseconds that the Go code reads from the clock; the stored value is
     * the whole second that Time.Unix reports.
     */
    method WithTTL(now: int, duration: int) returns (t: TokenV1)
      modifies this
      ensures t == this
      ensures View() == old(View()).(expireAt := Some((now + duration) / 1_000_000_000))
    {
      ExpireAt := Some((now + duration) / 1_000_000_000);
      return this;
    }

    method WithExpireAt(t1: int) returns (t: TokenV1)
      modifies this
      ensures t == this
      ensures View() == old(View()).(expireAt := Some(t1))
    {
      ExpireAt := Some(t1);
      return this;
    }

    method WithRateLimits(rps: u32, burstMultiplicator: byte) returns (t: TokenV1)
      modifies this
      ensures t == this
      ensures View() == old(View()).(limits := Some(RateLimit(rps, burstMultiplicator)))
    {
      Limits := Some(RateLimit(rps, burstMultiplicator));
      return this;
    }

    /** serialize: a fixed 10-byte head, then the blocks appended one by one. */
    method Serialize() returns (b: seq<byte>)
      ensures b == Encode(View())
      ensures |b| == 12 + (if IsSubtoken then 4 else 0) + (if ExpireAt.Some? then 4 else 0)
    {
      b := [0, 0, 0, 0, 0, 0, 0, 0, 0, 0];
      b := b[0 := Version1];
      b := b[..1] + PutUint32(AppID) + b[5..];
      b := b[..5] + PutUint32(TokenID) + b[9..];
      assert b == [Version1] + PutUint32(AppID) + PutUint32(TokenID) + [0];
      if IsSubtoken {
        b := b[9 := 1];
        b := b + PutUint32(SubtokenID);
      }
      assert b == [Version1] + PutUint32(AppID) + PutUint32(TokenID) + [if IsSubtoken then 1 else 0]
        + (if IsSubtoken then PutUint32(SubtokenID) else []);
      var flags: bv16 := 0;
      if ExpireAt.Some? {
        flags := SetBit(flags, 0);
        assert flags == 0x8000;
      }
      assert flags == Flags(View());
      b := b + PutUint16(flags);
      if ExpireAt.Some? {
        b := b + PutUint32(Truncate32(ExpireAt.value));
      }
    }

    /** String1 */
    method String1() returns (s: string)
      ensures s == Text(View())
    {
      var b := Serialize();
      s := Base32.TrimPadding(Base32.Encode(b + Signature));
    }

    /** Sign: overwrites the signature with the MAC of the serialization and returns it. */
    method Sign(mac: Mac, secret: seq<byte>) returns (sig: seq<byte>)
      modifies this
      ensures View() == old(View()).(signature := mac(secret, Encode(old(View()))))
      ensures sig == Signature
      ensures Verifies(mac, secret, View())
    {
      var b := Serialize();
      Signature := mac(secret, b);
      sig := Signature;
    }

    /** ValidSignature: recomputes the MAC and compares it with the stored tag. */
    method ValidSignature(mac: Mac, secret: seq<byte>) returns (ok: bool)
      ensures ok <==> Verifies(mac, secret, View())
    {
      var b := Serialize();
      ok := Signature == mac(secret, b);
    }

    /** parse: fills the fields from `b` (the bytes after the version byte) with a moving offset. */
    method Parse(b: seq<byte>) returns (err: Option<ParseError>)
      modifies this
      ensures View() == Decode(old(View()), b).record
      ensures err == Decode(old(View()), b).err
    {
      if |b| < 9 {
        return Some(InvalidTokenLength(|b|));
      }
      AppID := Uint32(b, 0);
      TokenID := Uint32(b, 4);
      IsSubtoken := b[8] == 1;
      var offset := 9;
      if IsSubtoken {
        if |b| < offset + 4 {
          return Some(InvalidTokenLength(|b|));
        }
        SubtokenID := Uint32(b, offset);
        offset := offset + 4;
      }
      if |b| < offset + 2 {
        return Some(InvalidTokenLength(|b|));
      }
      var flags := Uint16(b, offset);
      offset := offset + 2;
      if IsBitSet(flags, 0) {
        if |b| < offset + 4 {
          return Some(InvalidTokenLength(|b|));
        }
        ExpireAt := Some(Uint32(b, offset));
        offset := offset + 4;
      }
      if |b| < offset + 32 {
        return Some(InvalidTokenLength(|b|));
      }
      Signature := b[offset..offset + 32];
      return None;
    }
  }
}

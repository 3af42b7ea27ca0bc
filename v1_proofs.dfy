/**
 * Properties of the version-1 codec that relate several operations:
 * serialize followed by parse, parse of longer or altered buffers, and
 * signing followed by verification after a round trip.
 */
module V1Proofs {
  import opened Wrappers
  import opened Binary
  import opened V1

  /**
   * The token parse leaves behind when it reads back `r` followed by the
   * signature `sig`, starting from a token whose fields were `prev`. The
   * subtoken ID is only written for a subtoken, the expiry only when present
   * and then as its low 32 bits; Limits and BindIP are never touched.
   */
  function Restored(prev: Record, r: Record, sig: Tag): Record
  {
    prev.(appID := r.appID, tokenID := r.tokenID, isSubtoken := r.isSubtoken,
          subtokenID := if r.isSubtoken then r.subtokenID else prev.subtokenID,
          expireAt := if r.expireAt.Some? then Some(Truncate32(r.expireAt.value)) else prev.expireAt,
          signature := sig)
  }

  /**
   * parse after serialize: whatever follows the signature, parse succeeds and
   * restores every serialized field and the signature.
   */
  lemma DecodeEncode(prev: Record, r: Record, sig: Tag, rest: seq<byte>)
    ensures Decode(prev, (Encode(r) + sig + rest)[1..]) == Outcome(Restored(prev, r, sig), None)
  {
    var e := Encode(r);
    var b := (e + sig + rest)[1..];
    assert forall k :: 0 <= k < |e| - 1 ==> b[k] == e[k + 1];
    assert Uint32(b, 0) == Uint32(e, 1);
    assert Uint32(b, 4) == Uint32(e, 5);
    assert b[8] == e[9];
    var f := FlagsOffset(r.isSubtoken) - 1;
    if r.isSubtoken {
      assert Uint32(b, 9) == Uint32(e, 10);
    }
    assert b[f] == e[f + 1];
    if r.expireAt.Some? {
      assert Uint32(b, f + 2) == Uint32(e, f + 3);
    }
    var off := |e| - 1;
    assert forall k :: 0 <= k < 32 ==> b[off + k] == sig[k];
    assert b[off..off + 32] == sig;
    assert Complete(b);
    assert SignatureOffset(b) == off;
    var o := Decode(prev, b);
    assert o.record == Restored(prev, r, sig);
  }

  /** parse reads nothing after the signature: extra bytes change neither the token nor the error. */
  lemma DecodeIgnoresTail(prev: Record, b: seq<byte>, rest: seq<byte>)
    requires Complete(b)
    ensures Decode(prev, b + rest) == Decode(prev, b)
  {
    var c := b + rest;
    assert c[..|b|] == b;
    var f := if b[8] == 1 then 13 else 9;
    assert c[8] == b[8] && c[f] == b[f];
    assert Uint32(c, 0) == Uint32(b, 0) && Uint32(c, 4) == Uint32(b, 4);
    if b[8] == 1 {
      assert Uint32(c, 9) == Uint32(b, 9);
    }
    if b[f] >= 0x80 {
      assert Uint32(c, f + 2) == Uint32(b, f + 2);
    }
    assert Complete(c);
    assert SignatureOffset(c) == SignatureOffset(b);
    var k := SignatureOffset(b);
    assert c[k..k + 32] == b[k..k + 32];
    assert Decode(prev, c).record == Decode(prev, b).record;
  }

  /**
   * Only bit 0 of the flag word matters: rewriting the flag word with any
   * other bits, keeping bit 0, changes neither the token nor the error.
   */
  lemma DecodeIgnoresOtherFlagBits(prev: Record, b: seq<byte>, hi: byte, lo: byte)
    requires |b| >= 9
    requires var f := if b[8] == 1 then 13 else 9; f + 2 <= |b| && (hi >= 0x80 <==> b[f] >= 0x80)
    ensures var f := if b[8] == 1 then 13 else 9;
      Decode(prev, b[f := hi][f + 1 := lo]) == Decode(prev, b)
  {
    var f := if b[8] == 1 then 13 else 9;
    var c := b[f := hi][f + 1 := lo];
    FlagBit0(b, f);
    FlagBit0(c, f);
    if Complete(b) {
      FlagBitsComplete(prev, b, c, f);
    } else {
      FlagBitsIncomplete(prev, b, c, f);
    }
  }

  /** The complete case of DecodeIgnoresOtherFlagBits. */
  lemma FlagBitsComplete(prev: Record, b: seq<byte>, c: seq<byte>, f: nat)
    requires |b| >= 9 && f == (if b[8] == 1 then 13 else 9) && f + 2 <= |b| == |c|
    requires forall j :: 0 <= j < |b| && j != f && j != f + 1 ==> c[j] == b[j]
    requires c[f] >= 0x80 <==> b[f] >= 0x80
    requires Complete(b)
    ensures Decode(prev, c) == Decode(prev, b)
  {
    assert c[8] == b[8];
    assert Uint32(c, 0) == Uint32(b, 0) && Uint32(c, 4) == Uint32(b, 4);
    if b[8] == 1 {
      assert Uint32(c, 9) == Uint32(b, 9);
    }
    if b[f] >= 0x80 {
      assert Uint32(c, f + 2) == Uint32(b, f + 2);
    }
    assert Complete(c);
    var k := SignatureOffset(b);
    assert f + 2 <= k && k + 32 <= |b|;
    assert c[k..k + 32] == b[k..k + 32];
  }

  /** The incomplete case of DecodeIgnoresOtherFlagBits. */
  lemma FlagBitsIncomplete(prev: Record, b: seq<byte>, c: seq<byte>, f: nat)
    requires |b| >= 9 && f == (if b[8] == 1 then 13 else 9) && f + 2 <= |b| == |c|
    requires forall j :: 0 <= j < |b| && j != f && j != f + 1 ==> c[j] == b[j]
    requires c[f] >= 0x80 <==> b[f] >= 0x80
    requires !Complete(b)
    ensures Decode(prev, c) == Decode(prev, b)
  {
    assert c[8] == b[8];
    assert Uint32(c, 0) == Uint32(b, 0) && Uint32(c, 4) == Uint32(b, 4);
    if b[8] == 1 {
      assert Uint32(c, 9) == Uint32(b, 9);
    }
    if b[f] >= 0x80 && f + 6 <= |b| {
      assert Uint32(c, f + 2) == Uint32(b, f + 2);
    }
    FlagBit0(b, f);
    FlagBit0(c, f);
  }

  /**
   * serialize reads exactly the wire fields: two tokens serialize to the same
   * bytes if and only if they agree on them. In particular Limits, BindIP and
   * the signature never affect the signed bytes, and any change to a wire
   * field changes them.
   */
  lemma EncodeDeterminedByWireFields(r: Record, s: Record)
    ensures Encode(r) == Encode(s) <==> SameWireFields(r, s)
  {
    if Encode(r) == Encode(s) {
      DecodeEncode(Zero(), r, Zero().signature, []);
      DecodeEncode(Zero(), s, Zero().signature, []);
    }
  }

  /**
   * Serializing a parsed token reproduces the bytes that were parsed, provided
   * the token parsed into carried no expiry or the bytes carry one: parse
   * leaves ExpireAt alone when flag bit 0 is clear, so a stale expiry would be
   * serialized again.
   */
  lemma EncodeRestored(prev: Record, r: Record, sig: Tag)
    requires prev.expireAt.None? || r.expireAt.Some?
    ensures Encode(Restored(prev, r, sig)) == Encode(r)
  {
    var t := Restored(prev, r, sig);
    if r.expireAt.Some? {
      assert Truncate32(t.expireAt.value) == Truncate32(r.expireAt.value);
    }
    assert SameWireFields(t, r);
    EncodeDeterminedByWireFields(t, r);
  }

  /**
   * A token that verifies still verifies, with the same secret, once its
   * serialization and signature have been parsed back into a token without
   * an expiry (such as the fresh one ParseToken uses), or when the token
   * itself has an expiry.
   */
  lemma VerifiesAfterRoundTrip(mac: Mac, secret: seq<byte>, prev: Record, r: Record)
    requires prev.expireAt.None? || r.expireAt.Some?
    requires Verifies(mac, secret, r)
    ensures Verifies(mac, secret, Decode(prev, (Encode(r) + r.signature)[1..]).record)
  {
    DecodeEncode(prev, r, r.signature, []);
    assert Encode(r) + r.signature + [] == Encode(r) + r.signature;
    EncodeRestored(prev, r, r.signature);
  }

  /**
   * The reason for the precondition above: parsing a token without an expiry
   * into a token that already has one keeps the old expiry, and the result
   * no longer serializes to the bytes that were parsed.
   */
  lemma DecodeKeepsStaleExpiry(prev: Record, r: Record, sig: Tag)
    requires prev.expireAt.Some? && r.expireAt.None?
    ensures var t := Decode(prev, (Encode(r) + sig)[1..]).record;
      t.expireAt == prev.expireAt && Encode(t) != Encode(r)
  {
    DecodeEncode(prev, r, sig, []);
    assert Encode(r) + sig + [] == Encode(r) + sig;
    var t := Restored(prev, r, sig);
    EncodeDeterminedByWireFields(t, r);
  }
}

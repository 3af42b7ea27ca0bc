/**
 * The version dispatcher and text form (token.go): ParseToken restores the
 * `=` padding that String1 trims, decodes base 32, checks the version byte
 * and hands the remaining bytes to the version-1 parser.
 */
module Tokens {
  import opened Wrappers
  import opened Binary
  import Base32
  import V1
  import V1Proofs

  type Version = byte

  datatype Error =
    | CorruptInput                    // the base 32 decoder refused the string
    | InvalidTokenLength              // nothing was decoded
    | InvalidTokenVersion             // the first byte is not Version1
    | V1Error(cause: V1.ParseError)   // the version-1 parser ran out of bytes

  /**
   * The padding fix-up: `s` followed by just enough `=` to reach a multiple
   * of 8 characters, and `s` itself when it already has such a length.
   */
  function RestorePadding(s: string): (r: string)
    ensures |r| % 8 == 0 && |s| <= |r| < |s| + 8
    ensures r == s + Base32.Pads(|r| - |s|)
  {
    if |s| % 8 != 0 then s + Base32.Pads(8 - |s| % 8) else s
  }

  /** What ParseToken returns: the token's version and fields, and the error if any. */
  datatype Parsed = Parsed(version: Version, token: V1.Record, err: Option<Error>)

  /**
   * ParseToken as a function of its input. Before the version-1 parser runs,
   * every failure returns the zero token; after it, the token is returned as
   * far as the parser filled it, together with the parser's error.
   */
  function Parse(s: string): (p: Parsed)
    ensures p.err == Some(CorruptInput) <==> Base32.Decode(RestorePadding(s)).None?
    ensures p.err == Some(InvalidTokenLength) <==> Base32.Decode(RestorePadding(s)) == Some([])
    ensures p.err == Some(InvalidTokenVersion) <==>
      exists b :: Base32.Decode(RestorePadding(s)) == Some(b) && |b| >= 1 && b[0] != V1.Version1
    ensures p.version != V1.Version1 ==> p == Parsed(0, V1.Zero(), p.err) && p.err.Some? && !p.err.value.V1Error?
    ensures p.version == V1.Version1 ==>
      exists b :: Base32.Decode(RestorePadding(s)) == Some(b) && |b| >= 1 && b[0] == V1.Version1 &&
        V1.Decode(V1.Zero(), b[1..]) == V1.Outcome(p.token, if p.err.Some? then Some(p.err.value.cause) else None)
  {
    match Base32.Decode(RestorePadding(s))
    case None => Parsed(0, V1.Zero(), Some(CorruptInput))
    case Some(b) =>
      if |b| < 1 then Parsed(0, V1.Zero(), Some(InvalidTokenLength))
      else if b[0] != V1.Version1 then Parsed(0, V1.Zero(), Some(InvalidTokenVersion))
      else
        var o := V1.Decode(V1.Zero(), b[1..]);
        Parsed(V1.Version1, o.record, if o.err.Some? then Some(V1Error(o.err.value)) else None)
  }

  /** Token: a version tag and the version-1 fields it embeds. */
  class Token {
    var version: Version
    const TokenV1: V1.TokenV1

    /** The zero Token. */
    constructor ()
      ensures version == 0 && TokenV1.View() == V1.Zero() && fresh(TokenV1)
    {
      version := 0;
      TokenV1 := new V1.TokenV1(0, 0);
    }
  }

  /** ParseToken */
  method ParseToken(s: string) returns (t: Token, err: Option<Error>)
    ensures fresh(t) && fresh(t.TokenV1)
    ensures Parsed(t.version, t.TokenV1.View(), err) == Parse(s)
  {
    var padded := s;
    if |s| % 8 != 0 {
      padded := s + Base32.Pads(8 - |s| % 8);
    }
    var decoded := Base32.Decode(padded);
    if decoded.None? {
      t := new Token();
      return t, Some(CorruptInput);
    }
    var b := decoded.value;
    if |b| < 1 {
      t := new Token();
      return t, Some(InvalidTokenLength);
    }
    if b[0] != V1.Version1 {
      t := new Token();
      return t, Some(InvalidTokenVersion);
    }
    t := new Token();
    t.version := V1.Version1;
    var e := t.TokenV1.Parse(b[1..]);
    err := if e.Some? then Some(V1Error(e.value)) else None;
  }

  /** A text `p` characters short of a multiple of 8 gets exactly `p` characters of padding. */
  lemma RestoreShort(data: string, p: nat)
    requires p < 8 && (|data| + p) % 8 == 0
    ensures RestorePadding(data) == data + Base32.Pads(p)
  {
    var n := |data|;
    if p == 0 {
      assert n % 8 == 0;
    } else {
      assert n % 8 == 8 - p;
    }
  }

  /** Trimming the `=` that pad a text to a multiple of 8 and restoring them gives the text back. */
  lemma RestoreTrimmed(data: string, p: nat)
    requires data == [] || data[|data| - 1] != Base32.Pad
    requires p < 8 && (|data| + p) % 8 == 0
    ensures RestorePadding(Base32.TrimPadding(data + Base32.Pads(p))) == data + Base32.Pads(p)
  {
    var s := data + Base32.Pads(p);
    assert Base32.TrimPadding(s) == data by {
      Base32.PadCountOf(data, p);
      assert s[..|s| - p] == data;
    }
    RestoreShort(data, p);
  }

  /** Trimming the encoder's padding and restoring it gives back the encoder's output. */
  lemma RestoreTrimmedPadding(b: seq<byte>)
    ensures RestorePadding(Base32.TrimPadding(Base32.Encode(b))) == Base32.Encode(b)
  {
    var data := Base32.EncodeSymbols(b);
    if data != [] {
      assert Base32.SymbolValue(data[|data| - 1]).Some?;
    }
    RestoreTrimmed(data, Base32.PadLength(|data|));
  }

  /**
   * ParseToken after String1: the text form of any token parses without
   * error, as version 1, into a token with the original's serialized fields
   * (the expiry as its low 32 bits) and its signature.
   */
  lemma ParseText(r: V1.Record)
    ensures Parse(V1.Text(r)) == Parsed(V1.Version1, V1Proofs.Restored(V1.Zero(), r, r.signature), None)
  {
    var bytes := V1.Encode(r) + r.signature;
    RestoreTrimmedPadding(bytes);
    Base32.DecodeEncode(bytes);
    V1Proofs.DecodeEncode(V1.Zero(), r, r.signature, []);
    assert V1.Encode(r) + r.signature + [] == bytes;
  }

  /** A signed token's text form parses into a token that passes ValidSignature with the same secret. */
  lemma ParseTextVerifies(mac: V1.Mac, secret: seq<byte>, r: V1.Record)
    requires V1.Verifies(mac, secret, r)
    ensures V1.Verifies(mac, secret, Parse(V1.Text(r)).token)
  {
    ParseText(r);
    V1Proofs.EncodeRestored(V1.Zero(), r, r.signature);
  }
}

/**
 * Base 32 with the standard alphabet of RFC 4648, section 6, as Go's
 * base32.StdEncoding writes and reads it: every 5 input bytes (40 bits) become
 * 8 symbols of 5 bits each, a final partial group is filled with zero bits,
 * and `=` pads the output to a multiple of 8 characters.
 *
 * The codec is written as plain regrouping of a bit string: bytes are spread
 * into bits (most significant first), the bits are gathered again in groups of
 * five and mapped through the alphabet; decoding runs the same steps backwards
 * and drops the trailing bits that do not fill a byte.
 */
module Base32 {
  import opened Wrappers
  import opened Binary

  const Alphabet: string := "ABCDEFGHIJKLMNOPQRSTUVWXYZ234567"
  const Pad: char := '='

  function Pow2(n: nat): (p: nat)
    ensures p >= 1
  {
    if n == 0 then 1 else 2 * Pow2(n - 1)
  }

  /** The low `w` bits of `x`, most significant first. */
  function Bits(x: nat, w: nat): (bs: seq<bool>)
    ensures |bs| == w
  {
    if w == 0 then [] else Bits(x / 2, w - 1) + [x % 2 == 1]
  }

  /** The number a bit string denotes, most significant bit first. */
  function Value(bs: seq<bool>): (x: nat)
    ensures x < Pow2(|bs|)
  {
    if bs == [] then 0 else 2 * Value(bs[..|bs| - 1]) + (if bs[|bs| - 1] then 1 else 0)
  }

  lemma {:induction false} ValueOfBits(x: nat, w: nat)
    requires x < Pow2(w)
    ensures Value(Bits(x, w)) == x
  {
    if w > 0 {
      ValueOfBits(x / 2, w - 1);
      var bs := Bits(x, w);
      assert bs[..w - 1] == Bits(x / 2, w - 1);
    }
  }

  /** Every `w`-bit group of `bs`, in order; a final group shorter than `w` is dropped. */
  function Gather(bs: seq<bool>, w: nat): (xs: seq<nat>)
    requires w > 0
    ensures w * |xs| <= |bs| < w * (|xs| + 1)
    ensures forall i :: 0 <= i < |xs| ==> xs[i] < Pow2(w)
    decreases |bs|
  {
    if |bs| < w then [] else [Value(bs[..w])] + Gather(bs[w..], w)
  }

  /** Each number as `w` bits, concatenated. */
  function Spread(xs: seq<nat>, w: nat): (bs: seq<bool>)
    ensures |bs| == w * |xs|
  {
    if xs == [] then [] else Bits(xs[0], w) + Spread(xs[1..], w)
  }

  /** Gathering undoes spreading, whatever fewer-than-`w` bits follow. */
  lemma {:induction false} GatherSpread(xs: seq<nat>, w: nat, tail: seq<bool>)
    requires w > 0 && |tail| < w
    requires forall i :: 0 <= i < |xs| ==> xs[i] < Pow2(w)
    ensures Gather(Spread(xs, w) + tail, w) == xs
  {
    if xs != [] {
      var bs := Spread(xs, w) + tail;
      assert bs == Bits(xs[0], w) + (Spread(xs[1..], w) + tail);
      assert bs[..w] == Bits(xs[0], w);
      assert bs[w..] == Spread(xs[1..], w) + tail;
      ValueOfBits(xs[0], w);
      GatherSpread(xs[1..], w, tail);
    }
  }

  /** Spreading undoes gathering when the bits fill whole groups. */
  lemma {:induction false} SpreadGather(bs: seq<bool>, w: nat, n: nat)
    requires w > 0 && |bs| == w * n
    ensures Spread(Gather(bs, w), w) == bs
  {
    if n > 0 {
      assert |bs| >= w;
      assert |bs[w..]| == w * (n - 1);
      SpreadGather(bs[w..], w, n - 1);
      BitsOfValue(bs[..w]);
      assert bs == bs[..w] + bs[w..];
    } else {
      assert bs == [];
    }
  }

  /** Spreading what was gathered gives back the bits up to the last whole group. */
  lemma {:induction false} SpreadGatherPrefix(bs: seq<bool>, w: nat)
    requires w > 0
    ensures Spread(Gather(bs, w), w) == bs[..w * |Gather(bs, w)|]
    decreases |bs|
  {
    var xs := Gather(bs, w);
    if |bs| >= w {
      var rest := bs[w..];
      var ys := Gather(rest, w);
      assert xs == [Value(bs[..w])] + ys;
      assert xs[0] == Value(bs[..w]) && xs[1..] == ys;
      SpreadGatherPrefix(rest, w);
      BitsOfValue(bs[..w]);
      assert Spread(xs, w) == bs[..w] + rest[..w * |ys|];
      PrefixSplit(bs, w, w * |ys|);
    }
  }

  /** The first `w + k` bits are the first `w` followed by `k` more. */
  lemma PrefixSplit(bs: seq<bool>, w: nat, k: nat)
    requires w + k <= |bs|
    ensures bs[..w + k] == bs[..w] + bs[w..][..k]
  {
  }

  lemma {:induction false} BitsOfValue(bs: seq<bool>)
    ensures Bits(Value(bs), |bs|) == bs
  {
    if bs != [] {
      var init := bs[..|bs| - 1];
      BitsOfValue(init);
      assert Value(bs) / 2 == Value(init);
      assert bs == init + [bs[|bs| - 1]];
    }
  }

  function Zeros(n: nat): (bs: seq<bool>)
    ensures |bs| == n && forall i :: 0 <= i < n ==> !bs[i]
  {
    if n == 0 then [] else Zeros(n - 1) + [false]
  }

  function Pads(n: nat): (s: string)
    ensures |s| == n && forall i :: 0 <= i < n ==> s[i] == Pad
  {
    if n == 0 then [] else Pads(n - 1) + [Pad]
  }

  /** The value of an alphabet character, or None for any other character. */
  function SymbolValue(c: char): (v: Option<nat>)
    ensures v.Some? ==> v.value < 32
    ensures c == Pad ==> v.None?
  {
    if 'A' <= c <= 'Z' then Some(c as int - 'A' as int)
    else if '2' <= c <= '7' then Some(c as int - '2' as int + 26)
    else None
  }

  lemma SymbolValueOf(v: nat)
    requires v < 32
    ensures SymbolValue(Alphabet[v]) == Some(v)
  {
  }

  /** Each 5-bit value as its alphabet character. */
  function Symbols(xs: seq<nat>): (s: string)
    requires forall i :: 0 <= i < |xs| ==> xs[i] < 32
    ensures |s| == |xs|
  {
    seq(|xs|, i requires 0 <= i < |xs| => Alphabet[xs[i]])
  }

  /** The value of every character of `s`, or None when one of them is outside the alphabet. */
  function SymbolValues(s: string): (r: Option<seq<nat>>)
    ensures r.Some? <==> forall i :: 0 <= i < |s| ==> SymbolValue(s[i]).Some?
    ensures r.Some? ==> |r.value| == |s|
    ensures r.Some? ==> forall i :: 0 <= i < |s| ==> Some(r.value[i]) == SymbolValue(s[i])
  {
    if forall i :: 0 <= i < |s| ==> SymbolValue(s[i]).Some?
    then Some(seq(|s|, i requires 0 <= i < |s| => SymbolValue(s[i]).value))
    else None
  }

  lemma SymbolValuesOfSymbols(xs: seq<nat>)
    requires forall i :: 0 <= i < |xs| ==> xs[i] < 32
    ensures SymbolValues(Symbols(xs)) == Some(xs)
  {
    var s := Symbols(xs);
    forall i | 0 <= i < |xs| ensures SymbolValue(s[i]) == Some(xs[i]) {
      SymbolValueOf(xs[i]);
    }
    var r := SymbolValues(s);
    assert r.Some?;
    assert forall i :: 0 <= i < |xs| ==> r.value[i] == xs[i];
    assert r.value == xs;
  }

  /** How many `=` characters end `s`. */
  function PadCount(s: string): (n: nat)
    ensures n <= |s|
    ensures forall i :: |s| - n <= i < |s| ==> s[i] == Pad
    ensures n < |s| ==> s[|s| - n - 1] != Pad
  {
    if s != [] && s[|s| - 1] == Pad then PadCount(s[..|s| - 1]) + 1 else 0
  }

  lemma {:induction false} PadCountOf(data: string, n: nat)
    requires data == [] || data[|data| - 1] != Pad
    ensures PadCount(data + Pads(n)) == n
  {
    if n > 0 {
      assert (data + Pads(n))[..|data| + n - 1] == data + Pads(n - 1);
      PadCountOf(data, n - 1);
    } else {
      assert data + Pads(0) == data;
    }
  }

  /** strings.TrimRight(s, "="): `s` without its trailing `=` characters. */
  function TrimPadding(s: string): (r: string)
    ensures |r| <= |s|
    ensures r == [] || r[|r| - 1] != Pad
    ensures s == r + Pads(|s| - |r|)
  {
    s[..|s| - PadCount(s)]
  }

  /** How many bits fill `n` bits up to a multiple of five. */
  function Fill(n: nat): (k: nat)
    ensures k < 5 && (n + k) % 5 == 0
  {
    var r := n % 5;
    assert n == 5 * (n / 5) + r;
    if r == 0 then 0 else 5 - r
  }

  /** The input's bits, most significant first, with zero bits up to a multiple of five. */
  function Padded(b: seq<byte>): (bits: seq<bool>)
    ensures 8 * |b| <= |bits| < 8 * |b| + 5 && |bits| % 5 == 0
    ensures bits == Spread(b, 8) + Zeros(|bits| - 8 * |b|)
  {
    Spread(b, 8) + Zeros(Fill(8 * |b|))
  }

  /** The 5-bit values the encoder writes, before they are mapped through the alphabet. */
  function Quintets(b: seq<byte>): (xs: seq<nat>)
    ensures 5 * |xs| == |Padded(b)|
    ensures forall i :: 0 <= i < |xs| ==> xs[i] < 32
  {
    var bits := Padded(b);
    var xs := Gather(bits, 5);
    assert Pow2(5) == 32;
    assert |bits| == 5 * (|bits| / 5);
    xs
  }

  /** The encoder's symbols before padding. */
  function EncodeSymbols(b: seq<byte>): (data: string)
    ensures 8 * |b| <= 5 * |data| < 8 * |b| + 5
    ensures SymbolValues(data) == Some(Quintets(b))
  {
    SymbolValuesOfSymbols(Quintets(b));
    Symbols(Quintets(b))
  }

  function PadLength(m: nat): (p: nat)
    ensures p < 8 && (m + p) % 8 == 0
  {
    (8 - m % 8) % 8
  }

  /** base32.StdEncoding.EncodeToString */
  function Encode(b: seq<byte>): (s: string)
    ensures |s| % 8 == 0
  {
    var data := EncodeSymbols(b);
    data + Pads(PadLength(|data|))
  }

  /** 5-bit values regrouped into whole bytes; leftover bits below a byte are dropped. */
  function Regroup(vs: seq<nat>): (bytes: seq<byte>)
    requires forall i :: 0 <= i < |vs| ==> vs[i] < 32
    ensures 8 * |bytes| <= 5 * |vs| < 8 * (|bytes| + 1)
    ensures Spread(bytes, 8) == Spread(vs, 5)[..8 * |bytes|]
  {
    var bits := Spread(vs, 5);
    var xs := Gather(bits, 8);
    assert Pow2(8) == 256;
    SpreadGatherPrefix(bits, 8);
    xs
  }

  /**
   * base32.StdEncoding.DecodeString, strict: the length is a multiple of 8,
   * only the final group may be padded, and it then carries 1, 3, 4 or 6 `=`
   * (2, 4, 5 or 7 symbols, that is 1 to 4 bytes); every other character is in
   * the alphabet. Leftover bits below a whole byte are dropped unchecked.
   */
  function Decode(s: string): (r: Option<seq<byte>>)
    ensures r.Some? <==> (|s| % 8 == 0 && PadCount(s) in {0, 1, 3, 4, 6}
      && forall i :: 0 <= i < |s| - PadCount(s) ==> SymbolValue(s[i]).Some?)
    ensures r.Some? ==> 8 * |r.value| <= 5 * (|s| - PadCount(s)) < 8 * (|r.value| + 1)
    ensures r.Some? ==> (SymbolValues(s[..|s| - PadCount(s)]).Some?
      && Spread(r.value, 8) == Spread(SymbolValues(s[..|s| - PadCount(s)]).value, 5)[..8 * |r.value|])
  {
    var p := PadCount(s);
    if |s| % 8 != 0 || p !in {0, 1, 3, 4, 6} then None
    else match SymbolValues(s[..|s| - p])
      case None => None
      case Some(vs) => Some(Regroup(vs))
  }

  /** A symbol count the encoder produces leaves room for 0, 1, 3, 4 or 6 `=` in its last group. */
  lemma SymbolCount(n: nat, m: nat)
    requires 8 * n <= 5 * m < 8 * n + 5
    ensures PadLength(m) in {0, 1, 3, 4, 6}
  {
    var q, r := n / 5, n % 5;
    assert n == 5 * q + r;
    if r == 0 { assert m == 8 * q; }
    else if r == 1 { assert m == 8 * q + 2; }
    else if r == 2 { assert m == 8 * q + 4; }
    else if r == 3 { assert m == 8 * q + 5; }
    else { assert m == 8 * q + 7; }
  }

  /** The encoder's output: alphabet symbols, then the padding, which is all `=` it ends with. */
  lemma EncodeShape(b: seq<byte>)
    ensures PadCount(Encode(b)) == PadLength(|EncodeSymbols(b)|)
    ensures PadCount(Encode(b)) in {0, 1, 3, 4, 6}
  {
    var data := EncodeSymbols(b);
    SymbolCount(|b|, |data|);
    if data != [] {
      assert SymbolValue(data[|data| - 1]).Some?;
    }
    PadCountOf(data, PadLength(|data|));
  }

  /** Regrouping the encoder's 5-bit values into bytes gives back the input bytes. */
  lemma RegroupQuintets(b: seq<byte>)
    ensures Gather(Spread(Quintets(b), 5), 8) == b
  {
    var syms := Quintets(b);
    SpreadGather(Padded(b), 5, |syms|);
    assert Pow2(8) == 256;
    GatherSpread(b, 8, Zeros(|Padded(b)| - 8 * |b|));
  }

  /** The encoder's output without its trailing `=` is exactly its symbols. */
  lemma EncodeUnpadded(b: seq<byte>)
    ensures var s := Encode(b); s[..|s| - PadCount(s)] == EncodeSymbols(b)
  {
    var data := EncodeSymbols(b);
    EncodeShape(b);
    assert Encode(b) == data + Pads(PadLength(|data|));
  }

  /** Decoding what the encoder wrote gives back the bytes. */
  lemma DecodeEncode(b: seq<byte>)
    ensures Decode(Encode(b)) == Some(b)
  {
    var s := Encode(b);
    EncodeShape(b);
    EncodeUnpadded(b);
    assert SymbolValues(s[..|s| - PadCount(s)]) == Some(Quintets(b));
    RegroupQuintets(b);
  }
}

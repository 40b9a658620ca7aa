/** Base 64 encoding with the standard alphabet and padding (section 4 of RFC 4648),
    as Go's `base64.StdEncoding` implements it: `EncodeToString` and `DecodeString`. */
module Base64 {
  import opened Bytes
  import opened Wrappers
  import opened Errors

  /** The padding character '='. */
  const Pad: byte := 61

  /** The 64 characters of the standard alphabet: 'A'..'Z', 'a'..'z', '0'..'9', '+', '/'. */
  predicate IsAlphabet(c: byte) {
    65 <= c <= 90 || 97 <= c <= 122 || 48 <= c <= 57 || c == 43 || c == 47
  }

  /** The character that encodes the 6-bit value `x`. */
  function CharOf(x: int): (c: byte)
    requires 0 <= x < 64
    ensures IsAlphabet(c)
  {
    if x < 26 then (x + 65) as byte
    else if x < 52 then (x - 26 + 97) as byte
    else if x < 62 then (x - 52 + 48) as byte
    else if x == 62 then 43
    else 47
  }

  /** The 6-bit value an alphabet character stands for (Go's decode map). */
  function ValueOf(c: byte): (x: int)
    requires IsAlphabet(c)
    ensures 0 <= x < 64 && CharOf(x) == c
  {
    if 65 <= c <= 90 then c as int - 65
    else if 97 <= c <= 122 then c as int - 97 + 26
    else if 48 <= c <= 57 then c as int - 48 + 52
    else if c == 43 then 62
    else 63
  }

  lemma ValueOfCharOf(x: int)
    requires 0 <= x < 64
    ensures ValueOf(CharOf(x)) == x
  {
  }

  /** Every byte of an encoding is an alphabet character or the padding. */
  predicate IsEncodingChar(c: byte) {
    IsAlphabet(c) || c == Pad
  }

  /** Three input bytes become four characters. */
  function EncodeGroup(b0: byte, b1: byte, b2: byte): seq<byte> {
    [ CharOf(b0 as int / 4),
      CharOf(b0 as int % 4 * 16 + b1 as int / 16),
      CharOf(b1 as int % 16 * 4 + b2 as int / 64),
      CharOf(b2 as int % 64) ]
  }

  /** `base64.StdEncoding.EncodeToString`: whole groups first, then a final group of one or
      two bytes padded with "==" or "=". */
  function Encode(b: seq<byte>): (r: seq<byte>)
    ensures forall i :: 0 <= i < |r| ==> IsEncodingChar(r[i])
    decreases |b|
  {
    if |b| == 0 then []
    else if |b| == 1 then
      [CharOf(b[0] as int / 4), CharOf(b[0] as int % 4 * 16), Pad, Pad]
    else if |b| == 2 then
      [CharOf(b[0] as int / 4), CharOf(b[0] as int % 4 * 16 + b[1] as int / 16),
       CharOf(b[1] as int % 16 * 4), Pad]
    else
      EncodeGroup(b[0], b[1], b[2]) + Encode(b[3..])
  }

  /** Go's decoder skips every '\r' and '\n' of its input. */
  function StripNewlines(s: seq<byte>): (r: seq<byte>)
    ensures |r| <= |s|
  {
    if s == [] then []
    else (if s[0] == 10 || s[0] == 13 then [] else [s[0]]) + StripNewlines(s[1..])
  }

  /** The first byte of a quantum of four alphabet characters (trailing bits ignored). */
  function Byte0(q: seq<byte>): byte
    requires |q| >= 2 && IsAlphabet(q[0]) && IsAlphabet(q[1])
  {
    (ValueOf(q[0]) * 4 + ValueOf(q[1]) / 16) as byte
  }

  function Byte1(q: seq<byte>): byte
    requires |q| >= 3 && IsAlphabet(q[1]) && IsAlphabet(q[2])
  {
    (ValueOf(q[1]) % 16 * 16 + ValueOf(q[2]) / 4) as byte
  }

  function Byte2(q: seq<byte>): byte
    requires |q| >= 4 && IsAlphabet(q[2]) && IsAlphabet(q[3])
  {
    (ValueOf(q[2]) % 4 * 64 + ValueOf(q[3])) as byte
  }

  predicate IsFullQuantum(q: seq<byte>) {
    |q| == 4 && IsAlphabet(q[0]) && IsAlphabet(q[1]) && IsAlphabet(q[2]) && IsAlphabet(q[3])
  }

  /** The last quantum may end in "=" (two bytes) or "==" (one byte). Go's non-strict
      decoder does not require the unused bits before the padding to be zero. */
  function DecodeLast(q: seq<byte>): (r: Result<seq<byte>, Error>)
    requires |q| == 4
    ensures r.Err? ==> r.error == CorruptBase64
  {
    if !(IsAlphabet(q[0]) && IsAlphabet(q[1])) then Err(CorruptBase64)
    else if IsAlphabet(q[2]) && IsAlphabet(q[3]) then Ok([Byte0(q), Byte1(q), Byte2(q)])
    else if IsAlphabet(q[2]) && q[3] == Pad then Ok([Byte0(q), Byte1(q)])
    else if q[2] == Pad && q[3] == Pad then Ok([Byte0(q)])
    else Err(CorruptBase64)
  }

  /** Decoding of newline-free input, one quantum of four characters at a time; padding
      is accepted only in the last quantum and the input must be whole quanta. */
  function DecodeQuanta(t: seq<byte>): (r: Result<seq<byte>, Error>)
    ensures r.Err? ==> r.error == CorruptBase64
    decreases |t|
  {
    if |t| == 0 then Ok([])
    else if |t| < 4 then Err(CorruptBase64)
    else if |t| == 4 then DecodeLast(t)
    else if IsFullQuantum(t[..4]) then
      var rest :- DecodeQuanta(t[4..]);
      Ok([Byte0(t), Byte1(t), Byte2(t)] + rest)
    else Err(CorruptBase64)
  }

  /** `base64.StdEncoding.DecodeString`. */
  function Decode(s: seq<byte>): (r: Result<seq<byte>, Error>)
    ensures r.Err? ==> r.error == CorruptBase64
  {
    DecodeQuanta(StripNewlines(s))
  }

  // ---------------------------------------------------------------------------
  // An independent description of the accepted inputs.

  /** Position `i` of `t` holds an alphabet character, or a '=' that is the last
      character, or a '=' followed by a final '='. */
  predicate CharOk(t: seq<byte>, i: int)
    requires 0 <= i < |t|
  {
    IsAlphabet(t[i]) || (t[i] == Pad && (i == |t| - 1 || (i == |t| - 2 && t[|t| - 1] == Pad)))
  }

  /** Whole quanta of alphabet characters with at most two trailing '='. */
  predicate WellFormed(t: seq<byte>) {
    |t| % 4 == 0 && forall i :: 0 <= i < |t| ==> CharOk(t, i)
  }

  /** The inputs `DecodeString` accepts: well formed once newlines are dropped. */
  predicate IsValid(s: seq<byte>) {
    WellFormed(StripNewlines(s))
  }

  /** Dropping a leading quantum keeps every later position's verdict. */
  lemma CharOkShift(t: seq<byte>, i: int)
    requires |t| > 4 && 4 <= i < |t|
    ensures CharOk(t, i) <==> CharOk(t[4..], i - 4)
  {
    assert t[4..][i - 4] == t[i];
    assert t[4..][|t| - 5] == t[|t| - 1];
  }

  lemma WellFormedSplit(t: seq<byte>)
    requires |t| > 4
    ensures WellFormed(t) <==> IsFullQuantum(t[..4]) && WellFormed(t[4..])
  {
    var u := t[4..];
    if WellFormed(t) {
      assert CharOk(t, 0) && CharOk(t, 1) && CharOk(t, 2) && CharOk(t, 3);
      forall i | 0 <= i < |u| ensures CharOk(u, i) {
        CharOkShift(t, i + 4);
      }
    }
    if IsFullQuantum(t[..4]) && WellFormed(u) {
      forall i | 0 <= i < |t| ensures CharOk(t, i) {
        if i >= 4 {
          CharOkShift(t, i);
        } else {
          assert t[..4][i] == t[i];
        }
      }
    }
  }

  lemma WellFormedLast(q: seq<byte>)
    requires |q| == 4
    ensures WellFormed(q) <==> DecodeLast(q).Ok?
  {
    if WellFormed(q) {
      assert CharOk(q, 0) && CharOk(q, 1) && CharOk(q, 2) && CharOk(q, 3);
    }
  }

  /** Decoding succeeds exactly on well-formed input. */
  lemma {:induction false} DecodeQuantaOkIff(t: seq<byte>)
    ensures DecodeQuanta(t).Ok? <==> WellFormed(t)
    decreases |t|
  {
    if |t| == 0 {
    } else if |t| < 4 {
    } else if |t| == 4 {
      WellFormedLast(t);
    } else {
      WellFormedSplit(t);
      DecodeQuantaOkIff(t[4..]);
    }
  }

  /** `DecodeString` fails exactly on the inputs that are not valid base 64. */
  lemma DecodeOkIffValid(s: seq<byte>)
    ensures Decode(s).Ok? <==> IsValid(s)
  {
    DecodeQuantaOkIff(StripNewlines(s));
  }

  // ---------------------------------------------------------------------------
  // Round trip.

  lemma {:induction false} StripNewlinesNoop(s: seq<byte>)
    requires forall i :: 0 <= i < |s| ==> IsEncodingChar(s[i])
    ensures StripNewlines(s) == s
    decreases |s|
  {
    if s != [] {
      StripNewlinesNoop(s[1..]);
    }
  }

  lemma GroupRoundTrip(b0: byte, b1: byte, b2: byte)
    ensures IsFullQuantum(EncodeGroup(b0, b1, b2))
    ensures var q := EncodeGroup(b0, b1, b2); Byte0(q) == b0 && Byte1(q) == b1 && Byte2(q) == b2
  {
    var x0, x1, x2, x3 := b0 as int / 4, b0 as int % 4 * 16 + b1 as int / 16,
                          b1 as int % 16 * 4 + b2 as int / 64, b2 as int % 64;
    ValueOfCharOf(x0); ValueOfCharOf(x1); ValueOfCharOf(x2); ValueOfCharOf(x3);
  }

  lemma OneByteRoundTrip(b: seq<byte>)
    requires |b| == 1
    ensures DecodeQuanta(Encode(b)) == Ok(b)
  {
    var x0, x1 := b[0] as int / 4, b[0] as int % 4 * 16;
    ValueOfCharOf(x0);
    ValueOfCharOf(x1);
    var v := b[0] as int;
    assert x1 / 16 == v % 4;
    assert x0 * 4 + v % 4 == v;
    var q := Encode(b);
    assert q == [CharOf(x0), CharOf(x1), Pad, Pad];
    assert Byte0(q) == b[0];
    assert !IsAlphabet(q[2]) && q[2] == Pad && q[3] == Pad;
    assert DecodeLast(q) == Ok([Byte0(q)]);
    assert b == [b[0]];
  }

  lemma TwoByteRoundTrip(b: seq<byte>)
    requires |b| == 2
    ensures DecodeQuanta(Encode(b)) == Ok(b)
  {
    var x0, x1, x2 := b[0] as int / 4, b[0] as int % 4 * 16 + b[1] as int / 16, b[1] as int % 16 * 4;
    ValueOfCharOf(x0);
    ValueOfCharOf(x1);
    ValueOfCharOf(x2);
    var v0, v1 := b[0] as int, b[1] as int;
    assert x1 / 16 == v0 % 4 && x1 % 16 == v1 / 16;
    assert x2 / 4 == v1 % 16;
    assert x0 * 4 + v0 % 4 == v0;
    assert v1 / 16 * 16 + v1 % 16 == v1;
    var q := Encode(b);
    assert q == [CharOf(x0), CharOf(x1), CharOf(x2), Pad];
    assert Byte0(q) == b[0] && Byte1(q) == b[1];
    assert !IsAlphabet(q[3]) && q[3] == Pad;
    assert DecodeLast(q) == Ok([Byte0(q), Byte1(q)]);
    assert b == [b[0], b[1]];
  }

  /** A full quantum in front of a decodable rest decodes to its three bytes first. */
  lemma DecodeQuantaCons(g: seq<byte>, t: seq<byte>, rest: seq<byte>)
    requires IsFullQuantum(g) && |t| > 0 && DecodeQuanta(t) == Ok(rest)
    ensures DecodeQuanta(g + t) == Ok([Byte0(g), Byte1(g), Byte2(g)] + rest)
  {
    var q := g + t;
    assert q[0] == g[0] && q[1] == g[1] && q[2] == g[2] && q[3] == g[3];
    assert q[..4] == g;
    assert q[4..] == t;
    assert Byte0(q) == Byte0(g) && Byte1(q) == Byte1(g) && Byte2(q) == Byte2(g);
  }

  lemma {:induction false} DecodeQuantaEncode(b: seq<byte>)
    ensures DecodeQuanta(Encode(b)) == Ok(b)
    decreases |b|
  {
    if |b| == 1 {
      OneByteRoundTrip(b);
    } else if |b| == 2 {
      TwoByteRoundTrip(b);
    } else if |b| >= 3 {
      GroupRoundTrip(b[0], b[1], b[2]);
      var g, t := EncodeGroup(b[0], b[1], b[2]), Encode(b[3..]);
      assert Encode(b) == g + t;
      DecodeQuantaEncode(b[3..]);
      if |b| == 3 {
        assert Encode(b) == g;
        assert b == [b[0], b[1], b[2]];
      } else {
        DecodeQuantaCons(g, t, b[3..]);
        assert b == [b[0], b[1], b[2]] + b[3..];
      }
    }
  }

  /** `DecodeString(EncodeToString(b)) == b` for every byte string `b`. */
  lemma DecodeEncode(b: seq<byte>)
    ensures Decode(Encode(b)) == Ok(b)
  {
    StripNewlinesNoop(Encode(b));
    DecodeQuantaEncode(b);
  }

  /** Every encoding is accepted by the decoder. */
  lemma EncodeIsValid(b: seq<byte>)
    ensures IsValid(Encode(b))
  {
    DecodeEncode(b);
    DecodeOkIffValid(Encode(b));
  }
}

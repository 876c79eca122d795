/**
 * The standard base64 encoding with padding (section 4 of RFC 4648), as Go's
 * `base64.StdEncoding` encodes and decodes it. Decoding skips carriage returns
 * and line feeds anywhere in the input, accepts only whole four-character
 * quanta, accepts padding only in the last quantum, and ignores the unused low
 * bits of a padded quantum.
 */
module Base64 {
  import opened Wrappers
  import opened BundleTypes

  const PadChar: char := '='

  /** The character of the standard alphabet for a 6-bit value. */
  function SextetChar(x: int): (c: char)
    requires 0 <= x < 64
    ensures CharSextet(c) == Some(x)
  {
    if x < 26 then (65 + x) as char
    else if x < 52 then (97 + x - 26) as char
    else if x < 62 then (48 + x - 52) as char
    else if x == 62 then '+'
    else '/'
  }

  /** The 6-bit value of a character of the standard alphabet; None for any other character, the pad included. */
  function CharSextet(c: char): (r: Option<int>)
    ensures r.Some? ==> 0 <= r.value < 64
    ensures c == PadChar ==> r.None?
  {
    if 'A' <= c <= 'Z' then Some(c as int - 65)
    else if 'a' <= c <= 'z' then Some(c as int - 97 + 26)
    else if '0' <= c <= '9' then Some(c as int - 48 + 52)
    else if c == '+' then Some(62)
    else if c == '/' then Some(63)
    else None
  }

  /** A character that an encoding may contain. */
  predicate IsEncodingChar(c: char) {
    c == PadChar || CharSextet(c).Some?
  }

  // The four 6-bit values of a quantum, from the three bytes it encodes.
  function Sextet0(b0: byte): int { b0 as int / 4 }
  function Sextet1(b0: byte, b1: byte): int { b0 as int % 4 * 16 + b1 as int / 16 }
  function Sextet2(b1: byte, b2: byte): int { b1 as int % 16 * 4 + b2 as int / 64 }
  function Sextet3(b2: byte): int { b2 as int % 64 }

  // The three bytes of a quantum, from its four 6-bit values.
  function Byte0(c0: int, c1: int): byte
    requires 0 <= c0 < 64 && 0 <= c1 < 64
  {
    (c0 * 4 + c1 / 16) as byte
  }

  function Byte1(c1: int, c2: int): byte
    requires 0 <= c1 < 64 && 0 <= c2 < 64
  {
    (c1 % 16 * 16 + c2 / 4) as byte
  }

  function Byte2(c2: int, c3: int): byte
    requires 0 <= c2 < 64 && 0 <= c3 < 64
  {
    (c2 % 4 * 64 + c3) as byte
  }

  /** The four characters that encode three bytes. */
  function QuantumChars(b0: byte, b1: byte, b2: byte): (s: string)
    ensures |s| == 4
  {
    [SextetChar(Sextet0(b0)), SextetChar(Sextet1(b0, b1)), SextetChar(Sextet2(b1, b2)), SextetChar(Sextet3(b2))]
  }

  /** The padded standard base64 encoding of `b` (Go's `EncodeToString`). */
  function Encode(b: seq<byte>): (s: string)
    decreases |b|
  {
    if |b| == 0 then ""
    else if |b| == 1 then
      [SextetChar(Sextet0(b[0])), SextetChar(Sextet1(b[0], 0)), PadChar, PadChar]
    else if |b| == 2 then
      [SextetChar(Sextet0(b[0])), SextetChar(Sextet1(b[0], b[1])), SextetChar(Sextet2(b[1], 0)), PadChar]
    else
      QuantumChars(b[0], b[1], b[2]) + Encode(b[3..])
  }

  /** The encoding has four characters for every started group of three bytes. */
  lemma {:induction false} EncodeLength(b: seq<byte>)
    ensures |Encode(b)| == 4 * ((|b| + 2) / 3)
    decreases |b|
  {
    if |b| >= 3 {
      EncodeLength(b[3..]);
      assert (|b| + 2) / 3 == (|b| - 1) / 3 + 1;
    }
  }

  /** Every character of an encoding is in the alphabet or is the pad. */
  lemma {:induction false} EncodeAlphabet(b: seq<byte>)
    ensures forall i | 0 <= i < |Encode(b)| :: IsEncodingChar(Encode(b)[i])
    decreases |b|
  {
    if |b| >= 3 {
      EncodeAlphabet(b[3..]);
      var q, rest := QuantumChars(b[0], b[1], b[2]), Encode(b[3..]);
      assert Encode(b) == q + rest;
      forall i | 0 <= i < |Encode(b)|
        ensures IsEncodingChar(Encode(b)[i])
      {
        if i >= 4 {
          assert Encode(b)[i] == rest[i - 4];
        }
      }
    }
  }

  /** `s` without its carriage returns and line feeds, which Go's decoder skips. */
  function StripNewlines(s: string): (t: string)
    ensures |t| <= |s|
  {
    if |s| == 0 then ""
    else (if s[0] == '\n' || s[0] == '\r' then "" else [s[0]]) + StripNewlines(s[1..])
  }

  /** Decoding of whole quanta; None is Go's CorruptInputError. */
  function DecodeQuanta(s: string): (r: Option<seq<byte>>)
    decreases |s|
  {
    if |s| == 0 then Some([])
    else if |s| < 4 then None
    else
      var c0, c1, c2, c3 := CharSextet(s[0]), CharSextet(s[1]), CharSextet(s[2]), CharSextet(s[3]);
      if c0.None? || c1.None? then None
      else if s[2] == PadChar then
        if s[3] == PadChar && |s| == 4 then Some([Byte0(c0.value, c1.value)]) else None
      else if c2.None? then None
      else if s[3] == PadChar then
        if |s| == 4 then Some([Byte0(c0.value, c1.value), Byte1(c1.value, c2.value)]) else None
      else if c3.None? then None
      else
        match DecodeQuanta(s[4..])
        case None => None
        case Some(rest) => Some([Byte0(c0.value, c1.value), Byte1(c1.value, c2.value), Byte2(c2.value, c3.value)] + rest)
  }

  /** Go's `StdEncoding.DecodeString`: the bytes, or None on malformed input. */
  function Decode(s: string): Option<seq<byte>> {
    DecodeQuanta(StripNewlines(s))
  }

  /** The 6-bit values of three bytes give back those bytes. */
  lemma SextetsBytes(b0: byte, b1: byte, b2: byte)
    ensures 0 <= Sextet0(b0) < 64 && 0 <= Sextet1(b0, b1) < 64 && 0 <= Sextet2(b1, b2) < 64 && 0 <= Sextet3(b2) < 64
    ensures Byte0(Sextet0(b0), Sextet1(b0, b1)) == b0
    ensures Byte1(Sextet1(b0, b1), Sextet2(b1, b2)) == b1
    ensures Byte2(Sextet2(b1, b2), Sextet3(b2)) == b2
  {
  }

  lemma {:induction false} StripWithoutNewlines(s: string)
    requires forall i | 0 <= i < |s| :: IsEncodingChar(s[i])
    ensures StripNewlines(s) == s
  {
    if |s| > 0 {
      StripWithoutNewlines(s[1..]);
    }
  }

  /** Four alphabet characters decode to three bytes, followed by the decoding of what comes after them. */
  lemma DecodeQuantum(x0: char, x1: char, x2: char, x3: char, t: string)
    requires CharSextet(x0).Some? && CharSextet(x1).Some? && CharSextet(x2).Some? && CharSextet(x3).Some?
    ensures DecodeQuanta([x0, x1, x2, x3] + t) ==
      match DecodeQuanta(t)
      case None => None
      case Some(rest) =>
        var c0, c1, c2, c3 := CharSextet(x0).value, CharSextet(x1).value, CharSextet(x2).value, CharSextet(x3).value;
        Some([Byte0(c0, c1), Byte1(c1, c2), Byte2(c2, c3)] + rest)
  {
    var s := [x0, x1, x2, x3] + t;
    assert s[0] == x0 && s[1] == x1 && s[2] == x2 && s[3] == x3 && s[4..] == t;
  }

  /** A full quantum decodes to its three bytes, followed by the decoding of what comes after it. */
  lemma DecodeFullQuantum(b0: byte, b1: byte, b2: byte, t: string)
    ensures DecodeQuanta(QuantumChars(b0, b1, b2) + t) ==
      match DecodeQuanta(t)
      case None => None
      case Some(rest) => Some([b0, b1, b2] + rest)
  {
    SextetsBytes(b0, b1, b2);
    DecodeQuantum(SextetChar(Sextet0(b0)), SextetChar(Sextet1(b0, b1)), SextetChar(Sextet2(b1, b2)), SextetChar(Sextet3(b2)), t);
  }

  lemma DecodeDoublePadded(x0: char, x1: char)
    requires CharSextet(x0).Some? && CharSextet(x1).Some?
    ensures DecodeQuanta([x0, x1, PadChar, PadChar]) == Some([Byte0(CharSextet(x0).value, CharSextet(x1).value)])
  {
  }

  lemma DecodeSinglePadded(x0: char, x1: char, x2: char)
    requires CharSextet(x0).Some? && CharSextet(x1).Some? && CharSextet(x2).Some?
    ensures DecodeQuanta([x0, x1, x2, PadChar]) ==
      Some([Byte0(CharSextet(x0).value, CharSextet(x1).value), Byte1(CharSextet(x1).value, CharSextet(x2).value)])
  {
  }

  /** The encoding of one byte decodes to that byte. */
  lemma DecodeOneByte(b0: byte)
    ensures DecodeQuanta(Encode([b0])) == Some([b0])
  {
    var c0, c1 := Sextet0(b0), Sextet1(b0, 0);
    assert Byte0(c0, c1) == b0;
    var x0, x1 := SextetChar(c0), SextetChar(c1);
    assert Encode([b0]) == [x0, x1, PadChar, PadChar];
    DecodeDoublePadded(x0, x1);
  }

  /** The encoding of two bytes decodes to those bytes. */
  lemma DecodeTwoBytes(b0: byte, b1: byte)
    ensures DecodeQuanta(Encode([b0, b1])) == Some([b0, b1])
  {
    SextetsBytes(b0, b1, 0);
    var x0, x1, x2 := SextetChar(Sextet0(b0)), SextetChar(Sextet1(b0, b1)), SextetChar(Sextet2(b1, 0));
    assert Encode([b0, b1]) == [x0, x1, x2, PadChar];
    DecodeSinglePadded(x0, x1, x2);
  }

  /** If the bytes after the first three round-trip, so do all of them. */
  lemma DecodeQuantaEncodeStep(b: seq<byte>)
    requires |b| >= 3 && DecodeQuanta(Encode(b[3..])) == Some(b[3..])
    ensures DecodeQuanta(Encode(b)) == Some(b)
  {
    var t := b[3..];
    assert Encode(b) == QuantumChars(b[0], b[1], b[2]) + Encode(t);
    DecodeFullQuantum(b[0], b[1], b[2], Encode(t));
    assert b == [b[0], b[1], b[2]] + t;
  }

  lemma {:induction false} DecodeQuantaEncode(b: seq<byte>)
    ensures DecodeQuanta(Encode(b)) == Some(b)
    decreases |b|
  {
    if |b| == 1 {
      assert b == [b[0]];
      DecodeOneByte(b[0]);
    } else if |b| == 2 {
      assert b == [b[0], b[1]];
      DecodeTwoBytes(b[0], b[1]);
    } else if |b| >= 3 {
      DecodeQuantaEncode(b[3..]);
      DecodeQuantaEncodeStep(b);
    }
  }

  /** Known answers from section 10 of RFC 4648: the alphabet and the padding are the standard ones. */
  lemma EncodeTestVectors()
    ensures Encode([]) == ""
    ensures Encode([102]) == "Zg=="
    ensures Encode([102, 111]) == "Zm8="
    ensures Encode([102, 111, 111]) == "Zm9v"
    ensures Encode([102, 111, 111, 98]) == "Zm9vYg=="
    ensures Encode([102, 111, 111, 98, 97, 114]) == "Zm9vYmFy"
    ensures Encode([251, 255]) == "+/8="
  {
  }

  /** A known answer from section 10 of RFC 4648. */
  lemma DecodeTestVector()
    ensures Decode("Zm9v") == Some([102, 111, 111])
  {
    var q := ['Z', 'm', '9', 'v'];
    assert CharSextet('Z') == Some(25) && CharSextet('m') == Some(38) && CharSextet('9') == Some(61) && CharSextet('v') == Some(47);
    var bytes := [Byte0(25, 38), Byte1(38, 61), Byte2(61, 47)];
    assert bytes == [102, 111, 111];
    DecodeQuantum('Z', 'm', '9', 'v', "");
    assert DecodeQuanta(q + "") == Some(bytes + []);
    assert q + "" == q && bytes + [] == bytes;
    StripWithoutNewlines(q);
    assert "Zm9v" == q;
  }

  /** Removing line breaks from a concatenation removes them from each part. */
  lemma {:induction false} StripNewlinesConcat(a: string, b: string)
    ensures StripNewlines(a + b) == StripNewlines(a) + StripNewlines(b)
  {
    if |a| > 0 {
      assert (a + b)[1..] == a[1..] + b;
      StripNewlinesConcat(a[1..], b);
    } else {
      assert a + b == b;
    }
  }

  /** Go skips a carriage return or a line feed anywhere in the input. */
  lemma DecodeSkipsLineBreak(a: string, c: char, b: string)
    requires c == '\n' || c == '\r'
    ensures Decode(a + [c] + b) == Decode(a + b)
  {
    assert StripNewlines([c]) == "" + StripNewlines([c][1..]);
    assert [c][1..] == "";
    StripNewlinesConcat(a, [c]);
    assert StripNewlines(a + [c]) == StripNewlines(a);
    StripNewlinesConcat(a + [c], b);
    StripNewlinesConcat(a, b);
  }

  /** Go rejects a quantum without its pads. */
  lemma DecodeRejectsMissingPad()
    ensures Decode("Zg") == None
  {
    StripWithoutNewlines("Zg");
  }

  /** Go rejects padding before the last quantum. */
  lemma DecodeRejectsInnerPad()
    ensures Decode("Zg==Zm9v") == None
  {
    StripWithoutNewlines("Zg==Zm9v");
  }

  /** Go rejects a character outside the standard alphabet, such as the URL-safe '-'. */
  lemma DecodeRejectsOtherAlphabet()
    ensures Decode("Zm-v") == None
  {
    assert CharSextet('-') == None;
    StripWithoutNewlines("Zm");
    assert StripNewlines("Zm-v") == "Zm-v";
  }

  /** Go ignores the unused low bits of a padded quantum: "Zh==" decodes like "Zg==". */
  lemma DecodeIgnoresUnusedBits()
    ensures Decode("Zh==") == Some([102])
    ensures Decode("Zg==") == Some([102])
  {
    assert CharSextet('Z') == Some(25) && CharSextet('h') == Some(33) && CharSextet('g') == Some(32);
    assert Byte0(25, 33) == 102 && Byte0(25, 32) == 102;
    StripWithoutNewlines("Zh==");
    StripWithoutNewlines("Zg==");
    DecodeDoublePadded('Z', 'h');
    DecodeDoublePadded('Z', 'g');
  }

  /** Decoding undoes encoding. */
  lemma DecodeEncode(b: seq<byte>)
    ensures Decode(Encode(b)) == Some(b)
  {
    EncodeAlphabet(b);
    StripWithoutNewlines(Encode(b));
    DecodeQuantaEncode(b);
  }

  /** Distinct byte strings have distinct encodings. */
  lemma EncodeInjective(f: seq<byte>, g: seq<byte>)
    requires Encode(f) == Encode(g)
    ensures f == g
  {
    DecodeEncode(f);
    DecodeEncode(g);
  }
}

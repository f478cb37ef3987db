/**
  The base64 decoding that `java.util.Base64.getDecoder().decode(String)` performs: the
  "basic" decoder of section 4 of RFC 4648 (Table 1 alphabet, `=` padding, no line breaks,
  no whitespace).  The decoder is modelled digit by digit as the JDK runs it, so that its
  leniencies (missing padding is accepted, unused low bits need not be zero) are kept, and
  an RFC 4648 encoder is given as its partner.
*/
module Base64 {
  import opened Wrappers

  /** One octet of a `byte[]`, read as an unsigned value. */
  type Byte = x: int | 0 <= x < 256

  /** One base64 digit: six bits. */
  type Sextet = x: int | 0 <= x < 64

  /** The alphabet of Table 1 in section 4 of RFC 4648,
      "ABCDEFGHIJKLMNOPQRSTUVWXYZabcdefghijklmnopqrstuvwxyz0123456789+/", entry `v` encoding
      the value `v`. */
  const Alphabet: string := seq(64, v requires 0 <= v < 64 => Digit(v))

  /** The padding character. */
  const Pad: char := '='

  /** The character that encodes the value `v`. */
  function Digit(v: Sextet): char
  {
    if v < 26 then ('A' as int + v) as char
    else if v < 52 then ('a' as int + (v - 26)) as char
    else if v < 62 then ('0' as int + (v - 52)) as char
    else if v == 62 then '+'
    else '/'
  }

  /** The value of an alphabet character; `None` for any other character (the decoder's
      reverse table holds -1 there, or -2 for the padding character). */
  function Value(c: char): (r: Option<Sextet>)
    ensures r.Some? ==> Digit(r.value) == c
    ensures r.None? ==> forall v: Sextet :: Digit(v) != c
  {
    if 'A' <= c <= 'Z' then Some(c as int - 'A' as int)
    else if 'a' <= c <= 'z' then Some(c as int - 'a' as int + 26)
    else if '0' <= c <= '9' then Some(c as int - '0' as int + 52)
    else if c == '+' then Some(62)
    else if c == '/' then Some(63)
    else None
  }

  lemma ValueOfDigit(v: Sextet)
    ensures Value(Digit(v)) == Some(v)
  {
  }

  /** `Value` recognises exactly the characters of the alphabet. */
  lemma ValueRecognisesAlphabet(c: char)
    ensures Value(c).Some? <==> c in Alphabet
  {
    if Value(c).Some? {
      assert Alphabet[Value(c).value] == c;
    }
  }

  lemma AlphabetSamples()
    ensures Alphabet[0] == 'A' && Alphabet[25] == 'Z' && Alphabet[26] == 'a'
    ensures Alphabet[51] == 'z' && Alphabet[52] == '0' && Alphabet[61] == '9'
    ensures Alphabet[62] == '+' && Alphabet[63] == '/'
  {
  }

  /** The 24-bit group value that the JDK keeps in `bits` after reading the digits `p`
      (first digit in the top six bits). */
  function Bits(p: seq<Sextet>): (b: nat)
    requires |p| <= 4
    ensures b < 16777216
  {
    (if |p| > 0 then p[0] as int * 262144 else 0) + (if |p| > 1 then p[1] as int * 4096 else 0)
    + (if |p| > 2 then p[2] as int * 64 else 0) + (if |p| > 3 then p[3] as int else 0)
  }

  /** The three octets of a full four-digit group, high octet first. */
  function Group(p: seq<Sextet>): (r: seq<Byte>)
    requires |p| == 4
    ensures |r| == 3
    ensures r[0] as int * 65536 + r[1] as int * 256 + r[2] as int == Bits(p)
  {
    var b := Bits(p);
    OctetsOf(b);
    [b / 65536, (b / 256) % 256, b % 256]
  }

  /** A 24-bit value is its three octets, high first. */
  lemma OctetsOf(b: nat)
    requires b < 16777216
    ensures b / 65536 < 256
    ensures b / 65536 * 65536 + (b / 256) % 256 * 256 + b % 256 == b
  {
    var q, r := b / 256, b % 256;
    assert b == q * 256 + r;
    var h, m := q / 256, q % 256;
    assert q == h * 256 + m;
    assert b == h * 65536 + (m * 256 + r);
    assert 0 <= m * 256 + r < 65536;
  }

  /** What the decoder emits for the digits `p` still pending when the input ends or padding
      is met: nothing for none, one octet for two digits, two octets for three, and a failure
      ("Last unit does not have enough valid bits") for a single dangling digit. */
  function Flush(p: seq<Sextet>, out: seq<Byte>): (r: Option<seq<Byte>>)
    requires |p| < 4
    ensures r.None? <==> |p| == 1
    ensures r.Some? ==> |r.value| == |out| + (if |p| == 0 then 0 else |p| - 1)
    ensures r.Some? ==> r.value[..|out|] == out
  {
    if |p| == 0 then Some(out)
    else if |p| == 1 then None
    else if |p| == 2 then Some(out + [Bits(p) / 65536])
    else Some(out + [Bits(p) / 65536, (Bits(p) / 256) % 256])
  }

  /** After padding was read: flush the pending digits, and fail ("Input byte array has
      incorrect ending byte") if anything is left of the input. */
  function Finish(p: seq<Sextet>, out: seq<Byte>, rest: string): Option<seq<Byte>>
    requires |p| < 4
  {
    if rest == [] then Flush(p, out) else None
  }

  /** The JDK decoder's loop from the current position: `s` is the unread input, `p` the
      digits of the current group read so far (the JDK's `shiftto` is 18 - 6 * |p|) and `out`
      the octets emitted so far.  `None` stands for the `IllegalArgumentException` it throws. */
  function DecodeFrom(s: string, p: seq<Sextet>, out: seq<Byte>): Option<seq<Byte>>
    requires |p| < 4
    decreases |s|
  {
    if s == [] then Flush(p, out)
    else
      match Value(s[0])
      case Some(v) =>
        if |p| == 3 then DecodeFrom(s[1..], [], out + Group(p + [v]))
        else DecodeFrom(s[1..], p + [v], out)
      case None =>
        if s[0] != Pad then None                                  // illegal base64 character
        else if |p| == 0 then None                                // padding opens a group
        else if |p| == 2 then
          if |s| == 1 || s[1] != Pad then None                  // "xx=" must be "xx=="
          else Finish(p, out, s[2..])
        else Finish(p, out, s[1..])
  }

  /** `Base64.getDecoder().decode(s)`.  Characters above U+00FF are turned into `?` by the
      JDK before decoding; `?` is not in the alphabet, so they fail here exactly as there. */
  function Decode(s: string): Option<seq<Byte>>
  {
    DecodeFrom(s, [], [])
  }

  /** The RFC 4648 section 4 encoding of `b`, with padding. */
  function Encode(b: seq<Byte>): (s: string)
    ensures |s| == (|b| + 2) / 3 * 4
    decreases |b|
  {
    if |b| == 0 then ""
    else if |b| == 1 then [Digit(b[0] / 4), Digit(b[0] % 4 * 16), Pad, Pad]
    else if |b| == 2 then
      [Digit(b[0] / 4), Digit(b[0] % 4 * 16 + b[1] / 16), Digit(b[1] % 16 * 4), Pad]
    else
      [Digit(b[0] / 4), Digit(b[0] % 4 * 16 + b[1] / 16), Digit(b[1] % 16 * 4 + b[2] / 64),
       Digit(b[2] % 64)] + Encode(b[3..])
  }

  /** The encoder writes only digits of the alphabet and the padding character. */
  lemma {:induction false} EncodeAlphabet(b: seq<Byte>)
    ensures forall k :: 0 <= k < |Encode(b)| ==> Value(Encode(b)[k]).Some? || Encode(b)[k] == Pad
    decreases |b|
  {
    var s := Encode(b);
    if |b| >= 1 {
      ValueOfDigit(b[0] / 4);
    }
    if |b| == 1 {
      ValueOfDigit(b[0] % 4 * 16);
    } else if |b| == 2 {
      ValueOfDigit(b[0] % 4 * 16 + b[1] / 16);
      ValueOfDigit(b[1] % 16 * 4);
    } else if |b| > 2 {
      ValueOfDigit(b[0] % 4 * 16 + b[1] / 16);
      ValueOfDigit(b[1] % 16 * 4 + b[2] / 64);
      ValueOfDigit(b[2] % 64);
      EncodeAlphabet(b[3..]);
      var t := Encode(b[3..]);
      forall k | 4 <= k < |s| ensures Value(s[k]).Some? || s[k] == Pad {
        assert s[k] == t[k - 4];
      }
    }
  }

  /** An octet triple is determined by its 24-bit value. */
  lemma Base256Unique(r: seq<Byte>, x: Byte, y: Byte, z: Byte)
    requires |r| == 3
    requires r[0] as int * 65536 + r[1] as int * 256 + r[2] as int
          == x as int * 65536 + y as int * 256 + z as int
    ensures r == [x, y, z]
  {
  }

  /** The four digits the encoder writes for a full group carry that group's 24 bits. */
  lemma GroupOfDigits(x: Byte, y: Byte, z: Byte)
    ensures Group([x / 4, x % 4 * 16 + y / 16, y % 16 * 4 + z / 64, z % 64]) == [x, y, z]
  {
    var p: seq<Sextet> := [x / 4, x % 4 * 16 + y / 16, y % 16 * 4 + z / 64, z % 64];
    assert Bits(p) == x as int * 65536 + y as int * 256 + z as int;
    Base256Unique(Group(p), x, y, z);
  }

  /** Decoding one encoded three-octet group emits those octets and leaves the decoder at the
      start of the next group. */
  lemma DecodeFullGroup(x: Byte, y: Byte, z: Byte, rest: string, out: seq<Byte>)
    ensures DecodeFrom([Digit(x / 4), Digit(x % 4 * 16 + y / 16), Digit(y % 16 * 4 + z / 64),
                        Digit(z % 64)] + rest, [], out)
         == DecodeFrom(rest, [], out + [x, y, z])
  {
    var a, b, c, d := x / 4, x % 4 * 16 + y / 16, y % 16 * 4 + z / 64, z % 64;
    var s := [Digit(a), Digit(b), Digit(c), Digit(d)] + rest;
    ValueOfDigit(a); ValueOfDigit(b); ValueOfDigit(c); ValueOfDigit(d);
    assert s[1..][1..][1..][1..] == rest;
    GroupOfDigits(x, y, z);
    assert s[0] == Digit(a) && s[1..][0] == Digit(b) && s[1..][1..][0] == Digit(c);
    assert s[1..][1..][1..][0] == Digit(d);
    assert [] + [a] == [a] && [a] + [b] == [a, b] && [a, b] + [c] == [a, b, c];
    assert [a, b, c] + [d] == [a, b, c, d];
    calc {
      DecodeFrom(s, [], out);
      DecodeFrom(s[1..], [a], out);
      DecodeFrom(s[1..][1..], [a, b], out);
      DecodeFrom(s[1..][1..][1..], [a, b, c], out);
      DecodeFrom(rest, [], out + Group([a, b, c, d]));
    }
  }

  /** The encoding of a final single octet, "xy==", decodes to that octet. */
  lemma DecodeOneOctet(x: Byte, out: seq<Byte>)
    ensures DecodeFrom(Encode([x]), [], out) == Some(out + [x])
  {
    var s := Encode([x]);
    var p: seq<Sextet> := [x / 4, x % 4 * 16];
    ValueOfDigit(p[0]); ValueOfDigit(p[1]);
    assert s[1..][1..] == [Pad, Pad];
    assert [] + [p[0]] == [p[0]] && [p[0]] + [p[1]] == p;
    assert Bits(p) == x as int * 65536;
    calc {
      DecodeFrom(s, [], out);
      DecodeFrom(s[1..], [p[0]], out);
      DecodeFrom(s[1..][1..], p, out);
      Finish(p, out, []);
      Some(out + [x]);
    }
  }

  /** The octets a 16-bit value placed in the top of 24 bits consists of. */
  lemma TwoOctetBits(x: Byte, y: Byte)
    ensures (x as int * 65536 + y as int * 256) / 65536 == x
    ensures ((x as int * 65536 + y as int * 256) / 256) % 256 == y
  {
    var n := x as int * 65536 + y as int * 256;
    assert n / 256 == x as int * 256 + y as int;
  }

  /** The encoding of two final octets, "xyz=", decodes to those octets. */
  lemma DecodeTwoOctets(x: Byte, y: Byte, out: seq<Byte>)
    ensures DecodeFrom(Encode([x, y]), [], out) == Some(out + [x, y])
  {
    var s := Encode([x, y]);
    var p: seq<Sextet> := [x / 4, x % 4 * 16 + y / 16, y % 16 * 4];
    ValueOfDigit(p[0]); ValueOfDigit(p[1]); ValueOfDigit(p[2]);
    assert s[1..][1..][1..] == [Pad];
    assert [] + [p[0]] == [p[0]] && [p[0]] + [p[1]] == p[..2] && p[..2] + [p[2]] == p;
    assert Bits(p) == x as int * 65536 + y as int * 256;
    TwoOctetBits(x, y);
    calc {
      DecodeFrom(s, [], out);
      DecodeFrom(s[1..], [p[0]], out);
      DecodeFrom(s[1..][1..], p[..2], out);
      DecodeFrom(s[1..][1..][1..], p, out);
      Finish(p, out, []);
      Some(out + [x, y]);
    }
  }

  lemma {:induction false} DecodeEncodeFrom(b: seq<Byte>, out: seq<Byte>)
    ensures DecodeFrom(Encode(b), [], out) == Some(out + b)
    decreases |b|
  {
    if |b| == 0 {
      assert out + b == out;
    } else if |b| == 1 {
      DecodeOneOctet(b[0], out);
      assert b == [b[0]];
    } else if |b| == 2 {
      DecodeTwoOctets(b[0], b[1], out);
      assert b == [b[0], b[1]];
    } else {
      DecodeFullGroup(b[0], b[1], b[2], Encode(b[3..]), out);
      DecodeEncodeFrom(b[3..], out + [b[0], b[1], b[2]]);
      assert out + [b[0], b[1], b[2]] + b[3..] == out + b;
    }
  }

  /** Round trip: the decoder returns exactly the octets that were encoded. */
  lemma DecodeEncode(b: seq<Byte>)
    ensures Decode(Encode(b)) == Some(b)
  {
    DecodeEncodeFrom(b, []);
    assert [] + b == b;
  }

  /** A character that is neither in the alphabet nor the padding character, anywhere in the
      unread input, makes the decoder fail. */
  lemma {:induction false} ForeignCharFailsFrom(s: string, p: seq<Sextet>, out: seq<Byte>, i: nat)
    requires |p| < 4
    requires i < |s| && Value(s[i]).None? && s[i] != Pad
    ensures DecodeFrom(s, p, out) == None
    decreases |s|
  {
    if i > 0 {
      match Value(s[0])
      case Some(v) =>
        if |p| == 3 {
          ForeignCharFailsFrom(s[1..], [], out + Group(p + [v]), i - 1);
        } else {
          ForeignCharFailsFrom(s[1..], p + [v], out, i - 1);
        }
      case None =>
    }
  }

  /** A payload holding a character outside Table 1 and the padding character is rejected. */
  lemma ForeignCharFails(s: string, i: nat)
    requires i < |s| && s[i] !in Alphabet && s[i] != Pad
    ensures Decode(s) == None
  {
    ValueRecognisesAlphabet(s[i]);
    ForeignCharFailsFrom(s, [], [], i);
  }

  /** The decoder is lenient in two ways: padding may be left out, and the unused low bits of
      the last digit need not be zero.  So re-encoding what it decoded need not give back the
      input: "QR==" and "QQ" both decode to the single octet 'A' (65), which encodes as "QQ==". */
  lemma LenientDecoding()
    ensures Decode("QQ==") == Some([65])
    ensures Decode("QR==") == Some([65])
    ensures Decode("QQ") == Some([65])
    ensures Encode([65]) == "QQ==" && Encode([65]) != "QR=="
  {
    var e := Encode([65]);
    assert e == "QQ==";
    DecodeEncode([65]);
    ValueOfDigit(16); ValueOfDigit(17);
    assert "QR=="[1..][1..] == "==";
    assert "QQ"[1..][1..] == [];
  }

  /** A typical embedded payload decodes to the six octets of `<svg/>`. */
  lemma DecodeSvgExample()
    ensures Decode("PHN2Zy8+") == Some([60, 115, 118, 103, 47, 62])
  {
    assert Encode([60, 115, 118, 103, 47, 62]) == "PHN2Zy8+";
    DecodeEncode([60, 115, 118, 103, 47, 62]);
  }
}

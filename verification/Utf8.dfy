/**
 * The fatal streaming UTF-8 decoder transcript checks rely on: the state machine of the
 * WHATWG Encoding Standard, which drops one byte-order mark at the start of the stream.
 */
module Utf8 {
  import opened ByteStrings
  import opened Wrappers

  /** Unicode code points. */
  type Text = seq<nat>

  const BYTE_ORDER_MARK: nat := 0xFEFF

  /** `needed` continuation bytes are missing; `started` once the first code point has been seen. */
  datatype Decoder = Decoder(needed: nat, code: nat, lower: int, upper: int, started: bool)

  function Fresh(started: bool): Decoder {
    Decoder(0, 0, 0x80, 0xBF, started)
  }

  function Emitted(d: Decoder, code: nat): (Decoder, Text) {
    (Fresh(true), if !d.started && code == BYTE_ORDER_MARK then [] else [code])
  }

  /** One byte; None when it is malformed. */
  function Step(d: Decoder, b: Byte): Option<(Decoder, Text)> {
    if d.needed == 0 then
      if b <= 0x7F then Some(Emitted(d, b))
      else if 0xC2 <= b <= 0xDF then Some((Decoder(1, b - 0xC0, 0x80, 0xBF, d.started), []))
      else if 0xE0 <= b <= 0xEF then
        Some((Decoder(2, b - 0xE0, if b == 0xE0 then 0xA0 else 0x80, if b == 0xED then 0x9F else 0xBF, d.started), []))
      else if 0xF0 <= b <= 0xF4 then
        Some((Decoder(3, b - 0xF0, if b == 0xF0 then 0x90 else 0x80, if b == 0xF4 then 0x8F else 0xBF, d.started), []))
      else None
    else if !(d.lower <= b <= d.upper) || b < 0x80 then None
    else
      var code := d.code * 64 + (b - 0x80);
      if d.needed == 1 then Some(Emitted(d, code)) else Some((Decoder(d.needed - 1, code, 0x80, 0xBF, d.started), []))
  }

  /** Everything decoded so far, and the decoder's state. */
  function Decode(d: Decoder, bytes: Bytes): Option<(Decoder, Text)>
    decreases |bytes|
  {
    if bytes == [] then Some((d, []))
    else
      match Decode(d, bytes[..|bytes| - 1])
      case None => None
      case Some((middle, text)) =>
        match Step(middle, bytes[|bytes| - 1])
        case None => None
        case Some((after, more)) => Some((after, text + more))
  }

  /** Decoding does not depend on where the stream is cut. */
  lemma {:induction false} DecodeInParts(d: Decoder, left: Bytes, right: Bytes)
    ensures Decode(d, left + right) ==
            match Decode(d, left)
            case None => None
            case Some((middle, text)) =>
              match Decode(middle, right)
              case None => None
              case Some((after, more)) => Some((after, text + more))
    decreases |right|
  {
    hide Step;
    if right == [] {
      assert left + right == left;
      match Decode(d, left)
      case None =>
      case Some((middle, text)) => assert text + [] == text;
    } else {
      var (front, last) := (right[..|right| - 1], right[|right| - 1]);
      DecodeInParts(d, left, front);
      assert (left + right)[..|left + right| - 1] == left + front;
      match Decode(d, left)
      case None =>
      case Some((middle, text)) =>
        match Decode(middle, front)
        case None =>
        case Some((after, more)) =>
          match Step(after, last)
          case None =>
          case Some((end, rest)) => assert text + (more + rest) == text + more + rest;
    }
  }

  /** Between bytes: the bounds rule out overlong forms, so no multi-byte sequence decodes to ASCII. */
  predicate Sound(d: Decoder) {
    0x80 <= d.lower && d.upper <= 0xBF &&
    match d.needed
    case 0 => d == Fresh(d.started)
    case 1 => d.code >= 2
    case 2 => d.code >= 1 || d.lower >= 0xA0
    case 3 => d.code >= 1 || d.lower >= 0x90
    case _ => false
  }

  lemma StepSound(d: Decoder, b: Byte)
    requires Sound(d)
    ensures Step(d, b).Some? ==> Sound(Step(d, b).value.0)
  {
  }

  lemma {:induction false} DecodeSound(d: Decoder, bytes: Bytes)
    requires Sound(d)
    ensures Decode(d, bytes).Some? ==> Sound(Decode(d, bytes).value.0)
    decreases |bytes|
  {
    hide Step;
    if bytes != [] {
      var front := bytes[..|bytes| - 1];
      DecodeSound(d, front);
      match Decode(d, front)
      case None =>
      case Some((middle, text)) => StepSound(middle, bytes[|bytes| - 1]);
    }
  }

  /** Only a newline byte decodes to a newline, and it never stands inside another code point. */
  lemma NewlineIsNewline(d: Decoder, b: Byte)
    requires Sound(d) && Step(d, b).Some?
    ensures var (after, text) := Step(d, b).value;
            && (b == NEWLINE ==> d.needed == 0 && text == [NEWLINE as nat] && after == Fresh(true))
            && (b != NEWLINE ==> NEWLINE as nat !in text)
            && |text| <= 1 && (d.started ==> after.started)
  {
    if d.needed == 1 && b >= 0x80 {
      assert d.code * 64 + (b - 0x80) >= 128;
    }
  }

  // ---------------------------------------------------------------- what is decoded

  /** A code point that is no surrogate. */
  predicate Scalar(code: nat) {
    code < 0xD800 || 0xE000 <= code < 0x110000
  }

  predicate AllScalar(text: Text) {
    forall i | 0 <= i < |text| :: Scalar(text[i])
  }

  /** The encoding of one code point (section 3 of RFC 3629). */
  function Encoded(code: nat): Bytes
    requires Scalar(code)
  {
    if code < 0x80 then [code]
    else if code < 0x800 then [0xC0 + code / 64, 0x80 + code % 64]
    else if code < 0x1_0000 then [0xE0 + code / 4096, 0x80 + code / 64 % 64, 0x80 + code % 64]
    else [0xF0 + code / 0x4_0000, 0x80 + code / 4096 % 64, 0x80 + code / 64 % 64, 0x80 + code % 64]
  }

  function EncodedAll(text: Text): Bytes
    requires AllScalar(text)
    decreases |text|
  {
    if text == [] then [] else Encoded(text[0]) + EncodedAll(text[1..])
  }

  /** The mark is dropped at the start of the stream, once. */
  function WithoutMark(started: bool, text: Text): Text {
    if !started && text != [] && text[0] == BYTE_ORDER_MARK then text[1..] else text
  }

  lemma FirstStep(d: Decoder, bytes: Bytes)
    requires bytes != []
    ensures Decode(d, bytes) ==
            match Step(d, bytes[0])
            case None => None
            case Some((middle, text)) =>
              match Decode(middle, bytes[1..])
              case None => None
              case Some((after, more)) => Some((after, text + more))
  {
    hide Step;
    var first := [bytes[0]];
    assert first + bytes[1..] == bytes && first[..0] == [];
    DecodeInParts(d, first, bytes[1..]);
    match Step(d, bytes[0])
    case None =>
    case Some((middle, text)) => assert [] + text == text;
  }

  lemma OneByte(d: Decoder, b: Byte)
    ensures Decode(d, [b]) == Step(d, b)
  {
    hide Step;
    assert [b][..0] == [];
    match Step(d, b)
    case None =>
    case Some((middle, text)) => assert [] + text == text;
  }

  lemma TwoBytes(d: Decoder, a: Byte, b: Byte)
    requires Step(d, a).Some? && Step(d, a).value.1 == []
    ensures Decode(d, [a, b]) == Step(Step(d, a).value.0, b)
  {
    hide Step;
    FirstStep(d, [a, b]);
    assert [a, b][1..] == [b];
    OneByte(Step(d, a).value.0, b);
    match Step(Step(d, a).value.0, b)
    case None =>
    case Some((middle, text)) => assert [] + text == text;
  }

  lemma ThreeBytes(d: Decoder, a: Byte, b: Byte, c: Byte)
    requires Step(d, a).Some? && Step(d, a).value.1 == []
    requires Step(Step(d, a).value.0, b).Some? && Step(Step(d, a).value.0, b).value.1 == []
    ensures Decode(d, [a, b, c]) == Step(Step(Step(d, a).value.0, b).value.0, c)
  {
    hide Step;
    FirstStep(d, [a, b, c]);
    assert [a, b, c][1..] == [b, c];
    TwoBytes(Step(d, a).value.0, b, c);
    match Step(Step(Step(d, a).value.0, b).value.0, c)
    case None =>
    case Some((middle, text)) => assert [] + text == text;
  }

  lemma Sixths(code: nat)
    ensures code == code / 64 * 64 + code % 64
    ensures code / 64 == code / 4096 * 64 + code / 64 % 64
    ensures code / 4096 == code / 0x4_0000 * 64 + code / 4096 % 64
  {
    assert code / 64 / 64 == code / 4096 && code / 4096 / 64 == code / 0x4_0000;
  }

  lemma DecodesTwo(started: bool, code: nat)
    requires 0x80 <= code < 0x800
    ensures Decode(Fresh(started), Encoded(code)) == Some((Fresh(true), WithoutMark(started, [code])))
  {
    hide Decode;
    Sixths(code);
    var (d, bytes) := (Fresh(started), Encoded(code));
    TwoBytes(d, bytes[0], bytes[1]);
  }

  lemma DecodesThree(started: bool, code: nat)
    requires 0x800 <= code < 0x1_0000 && Scalar(code)
    ensures Decode(Fresh(started), Encoded(code)) == Some((Fresh(true), WithoutMark(started, [code])))
  {
    hide Decode;
    Sixths(code);
    var (d, bytes) := (Fresh(started), Encoded(code));
    var lead := code / 4096;
    var d1 := Decoder(2, lead, if lead == 0 then 0xA0 else 0x80, if lead == 13 then 0x9F else 0xBF, started);
    assert Step(d, bytes[0]) == Some((d1, []));
    assert Step(d1, bytes[1]) == Some((Decoder(1, code / 64, 0x80, 0xBF, started), []));
    ThreeBytes(d, bytes[0], bytes[1], bytes[2]);
  }

  lemma DecodesFour(started: bool, code: nat)
    requires 0x1_0000 <= code < 0x11_0000
    ensures Decode(Fresh(started), Encoded(code)) == Some((Fresh(true), WithoutMark(started, [code])))
  {
    hide Decode;
    Sixths(code);
    var (d, bytes) := (Fresh(started), Encoded(code));
    var lead := code / 0x4_0000;
    var d1 := Decoder(3, lead, if lead == 0 then 0x90 else 0x80, if lead == 4 then 0x8F else 0xBF, started);
    var d2 := Decoder(2, code / 4096, 0x80, 0xBF, started);
    assert Step(d, bytes[0]) == Some((d1, []));
    assert Step(d1, bytes[1]) == Some((d2, []));
    assert Step(d2, bytes[2]) == Some((Decoder(1, code / 64, 0x80, 0xBF, started), []));
    FirstStep(d, bytes);
    assert bytes[1..] == [bytes[1], bytes[2], bytes[3]];
    ThreeBytes(d1, bytes[1], bytes[2], bytes[3]);
    assert [] + WithoutMark(started, [code]) == WithoutMark(started, [code]);
  }

  lemma DecodesOne(started: bool, code: nat)
    requires Scalar(code)
    ensures Decode(Fresh(started), Encoded(code)) == Some((Fresh(true), WithoutMark(started, [code])))
  {
    if code < 0x80 {
      OneByte(Fresh(started), code);
    } else if code < 0x800 {
      DecodesTwo(started, code);
    } else if code < 0x1_0000 {
      DecodesThree(started, code);
    } else {
      DecodesFour(started, code);
    }
  }

  /** Decoding an encoded text gives the text back, less a mark at the start of the stream. */
  lemma {:induction false} DecodesWhatWasEncoded(started: bool, text: Text)
    requires AllScalar(text)
    ensures Decode(Fresh(started), EncodedAll(text))
            == Some((Fresh(started || text != []), WithoutMark(started, text)))
    decreases |text|
  {
    hide Step, Encoded, Decode;
    NothingMore(Fresh(started));
    if text != [] {
      var (first, rest) := (text[0], text[1..]);
      assert text == [first] + rest;
      DecodesOne(started, first);
      DecodesWhatWasEncoded(true, rest);
      DecodeInParts(Fresh(started), Encoded(first), EncodedAll(rest));
      assert [] + rest == rest;
    }
  }

  /** A continuation byte adds six bits. */
  function Continued(high: int, b: int): int {
    high * 64 + (b - 0x80)
  }

  /** The states inside a code point, by what has been read of it. */
  predicate Inside(d: Decoder, read: Bytes) {
    match |read|
    case 1 =>
      var a := read[0];
      && (d.needed == 1 <==> 0xC2 <= a <= 0xDF) && (d.needed == 2 <==> 0xE0 <= a <= 0xEF)
      && (d.needed == 3 <==> 0xF0 <= a <= 0xF4) && 1 <= d.needed <= 3
      && d.code == a - (if d.needed == 1 then 0xC0 else if d.needed == 2 then 0xE0 else 0xF0)
      && d.lower == (if a == 0xE0 then 0xA0 else if a == 0xF0 then 0x90 else 0x80)
      && d.upper == (if a == 0xED then 0x9F else if a == 0xF4 then 0x8F else 0xBF)
    case 2 =>
      var (a, b) := (read[0], read[1]);
      && 1 <= d.needed <= 2 && d.lower == 0x80 && d.upper == 0xBF
      && (if d.needed == 1 then
            && 0xE0 <= a <= 0xEF && d.code == Continued(a - 0xE0, b)
            && (if a == 0xE0 then 0xA0 else 0x80) <= b <= (if a == 0xED then 0x9F else 0xBF)
          else
            && 0xF0 <= a <= 0xF4 && d.code == Continued(a - 0xF0, b)
            && (if a == 0xF0 then 0x90 else 0x80) <= b <= (if a == 0xF4 then 0x8F else 0xBF))
    case 3 =>
      var (a, b, c) := (read[0], read[1], read[2]);
      && d.needed == 1 && d.lower == 0x80 && d.upper == 0xBF && 0xF0 <= a <= 0xF4 && 0x80 <= c <= 0xBF
      && (if a == 0xF0 then 0x90 else 0x80) <= b <= (if a == 0xF4 then 0x8F else 0xBF)
      && d.code == Continued(Continued(a - 0xF0, b), c)
    case _ => false
  }

  /** One more byte leads further inside or completes the encoding of a code point. */
  lemma InsideStep(d: Decoder, read: Bytes, b: Byte) returns (code: nat)
    requires Inside(d, read) && Step(d, b).Some?
    ensures var after := Step(d, b).value.0;
            if after.needed > 0 then Inside(after, read + [b]) else Scalar(code) && Encoded(code) == read + [b]
  {
    code := Continued(d.code, b);
    if d.needed == 1 {
      if |read| == 1 {
        EncodesTwo(read[0], b, code);
      } else if |read| == 2 {
        EncodesThree(read[0], read[1], b, code);
        assert read + [b] == [read[0], read[1], b];
      } else {
        EncodesFour(read[0], read[1], read[2], b, code);
        assert read + [b] == [read[0], read[1], read[2], b];
      }
    }
  }

  lemma EncodesTwo(a: Byte, b: Byte, code: nat)
    requires 0xC2 <= a <= 0xDF && 0x80 <= b <= 0xBF && code == Continued(a - 0xC0, b)
    ensures Scalar(code) && Encoded(code) == [a, b]
  {
  }

  lemma SixBits(high: nat, b: Byte)
    requires 0x80 <= b <= 0xBF
    ensures Continued(high, b) / 64 == high && Continued(high, b) % 64 == b - 0x80
  {
  }

  lemma TwelveBits(code: nat)
    ensures code / 4096 == code / 64 / 64 && code / 0x4_0000 == code / 4096 / 64
  {
  }

  lemma EncodesThree(a: Byte, b: Byte, c: Byte, code: nat)
    requires 0xE0 <= a <= 0xEF && 0x80 <= b <= 0xBF && 0x80 <= c <= 0xBF
    requires code == Continued(Continued(a - 0xE0, b), c) && 0x800 <= code && Scalar(code)
    ensures Encoded(code) == [a, b, c]
  {
    SixBits(a - 0xE0, b);
    SixBits(Continued(a - 0xE0, b), c);
    TwelveBits(code);
    hide Continued;
    assert code / 4096 == a - 0xE0;
  }

  lemma EncodesFour(a: Byte, b: Byte, c: Byte, e: Byte, code: nat)
    requires 0xF0 <= a <= 0xF4 && 0x80 <= b <= 0xBF && 0x80 <= c <= 0xBF && 0x80 <= e <= 0xBF
    requires code == Continued(Continued(Continued(a - 0xF0, b), c), e) && 0x1_0000 <= code < 0x11_0000
    ensures Encoded(code) == [a, b, c, e]
  {
    SixBits(a - 0xF0, b);
    SixBits(Continued(a - 0xF0, b), c);
    SixBits(Continued(Continued(a - 0xF0, b), c), e);
    TwelveBits(code);
    hide Continued;
    assert code / 0x4_0000 == a - 0xF0;
  }

  lemma StartsInside(started: bool, b: Byte)
    requires Step(Fresh(started), b).Some?
    ensures var after := Step(Fresh(started), b).value.0;
            if after.needed > 0 then Inside(after, [b]) else Scalar(b) && Encoded(b) == [b]
  {
  }

  /** A stream that decodes to its end, the beginning of a code point having been read, goes on with the rest of it. */
  lemma {:induction false} RestOfCharacter(d: Decoder, read: Bytes, bytes: Bytes) returns (code: nat)
    requires Inside(d, read) && Decode(d, bytes).Some? && Decode(d, bytes).value.0.needed == 0
    ensures Scalar(code) && Encoded(code) <= read + bytes
    decreases |bytes|
  {
    hide Decode, Step, Encoded, Scalar;
    NothingMore(d);
    NotYet(d, read);
    FirstStep(d, bytes);
    var after := Step(d, bytes[0]).value.0;
    code := InsideStep(d, read, bytes[0]);
    assert read + bytes == read + [bytes[0]] + bytes[1..];
    if after.needed > 0 {
      code := RestOfCharacter(after, read + [bytes[0]], bytes[1..]);
    }
  }

  lemma NotYet(d: Decoder, read: Bytes)
    requires Inside(d, read)
    ensures d.needed > 0
  {
  }

  /** A stream that decodes to its end begins with the encoding of a code point. */
  lemma FirstCharacter(started: bool, bytes: Bytes) returns (code: nat)
    requires bytes != [] && Decode(Fresh(started), bytes).Some?
    requires Decode(Fresh(started), bytes).value.0.needed == 0
    ensures Scalar(code) && Encoded(code) <= bytes
  {
    hide Decode, Step, Encoded, Scalar, Inside;
    FirstStep(Fresh(started), bytes);
    StartsInside(started, bytes[0]);
    var after := Step(Fresh(started), bytes[0]).value.0;
    assert bytes == [bytes[0]] + bytes[1..];
    code := bytes[0];
    if after.needed > 0 {
      code := RestOfCharacter(after, [bytes[0]], bytes[1..]);
    }
  }

  lemma NothingMore(d: Decoder)
    ensures Decode(d, []) == Some((d, []))
  {
  }

  lemma {:induction false} OnlyEncodingsDecode(started: bool, bytes: Bytes) returns (text: Text)
    requires Decode(Fresh(started), bytes).Some? && Decode(Fresh(started), bytes).value.0.needed == 0
    ensures AllScalar(text) && EncodedAll(text) == bytes
    decreases |bytes|
  {
    hide Step, Encoded, Scalar;
    if bytes == [] {
      text := [];
    } else {
      var code := FirstCharacter(started, bytes);
      EncodedLength(code);
      var (first, rest) := (Encoded(code), bytes[|Encoded(code)|..]);
      assert first + rest == bytes;
      DecodesOne(started, code);
      DecodeInParts(Fresh(started), first, rest);
      var texts := OnlyEncodingsDecode(true, rest);
      text := [code] + texts;
      assert text[1..] == texts;
    }
  }

  lemma EncodedLength(code: nat)
    requires Scalar(code)
    ensures 1 <= |Encoded(code)| <= 4
  {
  }

  /**
   * Bytes are accepted as a whole stream exactly when they are the encoding of a text without
   * surrogates, in its shortest form; what comes out is that text, less a leading mark.
   */
  lemma DecodesExactly(started: bool, bytes: Bytes)
    ensures Decode(Fresh(started), bytes).Some? && Decode(Fresh(started), bytes).value.0.needed == 0
            <==> exists text :: AllScalar(text) && EncodedAll(text) == bytes
    ensures forall text | AllScalar(text) && EncodedAll(text) == bytes ::
              Decode(Fresh(started), bytes) == Some((Fresh(started || text != []), WithoutMark(started, text)))
  {
    hide Decode, EncodedAll;
    if Decode(Fresh(started), bytes).Some? && Decode(Fresh(started), bytes).value.0.needed == 0 {
      var text := OnlyEncodingsDecode(started, bytes);
    }
    forall text | AllScalar(text) && EncodedAll(text) == bytes
      ensures Decode(Fresh(started), bytes) == Some((Fresh(started || text != []), WithoutMark(started, text)))
    {
      DecodesWhatWasEncoded(started, text);
    }
  }
}

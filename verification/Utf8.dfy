/** Text as UTF-8 bytes, following section 3.9 of the Unicode Standard. */
module Utf8 {
  import opened Bytes
  import opened Options

  function EncodeChar(c: char): (r: seq<Byte>)
    ensures 1 <= |r| <= 4
  {
    var v := c as int;
    if v < 0x80 then [v]
    else if v < 0x800 then [0xc0 + v / 0x40, 0x80 + v % 0x40]
    else if v < 0x1_0000 then [0xe0 + v / 0x1000, 0x80 + v / 0x40 % 0x40, 0x80 + v % 0x40]
    else [0xf0 + v / 0x4_0000, 0x80 + v / 0x1000 % 0x40, 0x80 + v / 0x40 % 0x40, 0x80 + v % 0x40]
  }

  function Encode(text: string): seq<Byte>
  {
    if text == [] then [] else EncodeChar(text[0]) + Encode(text[1..])
  }

  predicate Continues(bytes: seq<Byte>, count: nat)
  {
    |bytes| > count && forall k :: 1 <= k <= count ==> 0x80 <= bytes[k] < 0xc0
  }

  /** The bits of a byte above its marker. */
  function Payload(byte: Byte, marker: int): int { byte - marker }

  /** The first character and how many bytes it takes; None when the bytes do not start with one. */
  function DecodeChar(bytes: seq<Byte>): (r: Option<(char, nat)>)
    requires bytes != []
    ensures r.Some? ==> 1 <= r.value.1 <= |bytes|
  {
    var lead := bytes[0];
    if lead < 0x80 then Some((lead as char, 1))
    else if 0xc2 <= lead < 0xe0 && Continues(bytes, 1) then
      Some(((Payload(lead, 0xc0) * 0x40 + Payload(bytes[1], 0x80)) as char, 2))
    else if 0xe0 <= lead < 0xf0 && Continues(bytes, 2) then
      var v := Payload(lead, 0xe0) * 0x1000 + Payload(bytes[1], 0x80) * 0x40 + Payload(bytes[2], 0x80);
      if v >= 0x800 && !(0xd800 <= v < 0xe000) then Some((v as char, 3)) else None
    else if 0xf0 <= lead < 0xf5 && Continues(bytes, 3) then
      var v := Payload(lead, 0xf0) * 0x4_0000 + Payload(bytes[1], 0x80) * 0x1000 + Payload(bytes[2], 0x80) * 0x40 + Payload(bytes[3], 0x80);
      if 0x1_0000 <= v < 0x11_0000 then Some((v as char, 4)) else None
    else None
  }

  function Decode(bytes: seq<Byte>): Option<string>
  {
    if bytes == [] then Some([])
    else match DecodeChar(bytes)
      case None => None
      case Some((c, count)) => match Decode(bytes[count..]) case None => None case Some(rest) => Some([c] + rest)
  }

  lemma SixBits(v: nat)
    ensures v == v / 0x40 * 0x40 + v % 0x40 && v / 0x1000 == v / 0x40 / 0x40
    ensures v / 0x40 == v / 0x1000 * 0x40 + v / 0x40 % 0x40
    ensures v / 0x1000 == v / 0x4_0000 * 0x40 + v / 0x1000 % 0x40
  {
  }

  lemma ShortCharBack(c: char, rest: seq<Byte>)
    requires c as int < 0x800
    ensures DecodeChar(EncodeChar(c) + rest) == Some((c, |EncodeChar(c)|))
  {
    SixBits(c as int);
  }

  lemma ThreeByteCharBack(c: char, rest: seq<Byte>)
    requires 0x800 <= c as int < 0x1_0000
    ensures DecodeChar(EncodeChar(c) + rest) == Some((c, |EncodeChar(c)|))
  {
    var v := c as int;
    var x, y, z := v / 0x1000, v / 0x40 % 0x40, v % 0x40;
    SixBits(v);
    assert v == x * 0x1000 + y * 0x40 + z;
    assert EncodeChar(c) == [0xe0 + x, 0x80 + y, 0x80 + z];
  }

  lemma FourByteCharBack(c: char, rest: seq<Byte>)
    requires c as int >= 0x1_0000
    ensures DecodeChar(EncodeChar(c) + rest) == Some((c, |EncodeChar(c)|))
  {
    var v := c as int;
    var w, x, y, z := v / 0x4_0000, v / 0x1000 % 0x40, v / 0x40 % 0x40, v % 0x40;
    SixBits(v);
    assert v == w * 0x4_0000 + x * 0x1000 + y * 0x40 + z;
    assert EncodeChar(c) == [0xf0 + w, 0x80 + x, 0x80 + y, 0x80 + z];
  }

  lemma CharBack(c: char, rest: seq<Byte>)
    ensures DecodeChar(EncodeChar(c) + rest) == Some((c, |EncodeChar(c)|))
  {
    hide DecodeChar, EncodeChar;
    if c as int < 0x800 { ShortCharBack(c, rest); }
    else if c as int < 0x1_0000 { ThreeByteCharBack(c, rest); }
    else { FourByteCharBack(c, rest); }
  }

  /** Every text comes back from its bytes. */
  lemma {:induction false} TextBack(text: string)
    ensures Decode(Encode(text)) == Some(text)
  {
    hide EncodeChar, DecodeChar;
    if text != [] {
      CharBack(text[0], Encode(text[1..]));
      TextBack(text[1..]);
      var first := EncodeChar(text[0]);
      assert (first + Encode(text[1..]))[|first|..] == Encode(text[1..]);
      assert [text[0]] + text[1..] == text;
    }
  }

  // ---- only encodings are read ----

  lemma TwoByteForm(bytes: seq<Byte>)
    requires bytes != [] && 0xc2 <= bytes[0] < 0xe0 && DecodeChar(bytes).Some?
    ensures bytes[..DecodeChar(bytes).value.1] == EncodeChar(DecodeChar(bytes).value.0)
  {
    var x: int, y: int := bytes[0] - 0xc0, bytes[1] - 0x80;
    var v := x * 0x40 + y;
    assert v / 0x40 == x && v % 0x40 == y;
    assert bytes[..2] == [bytes[0], bytes[1]];
  }

  lemma ThreeByteForm(bytes: seq<Byte>)
    requires bytes != [] && 0xe0 <= bytes[0] < 0xf0 && DecodeChar(bytes).Some?
    ensures bytes[..DecodeChar(bytes).value.1] == EncodeChar(DecodeChar(bytes).value.0)
  {
    var x: int, y: int, z: int := bytes[0] - 0xe0, bytes[1] - 0x80, bytes[2] - 0x80;
    var v := x * 0x1000 + y * 0x40 + z;
    assert v / 0x40 == x * 0x40 + y && v % 0x40 == z;
    SixBits(v);
    assert bytes[..3] == [bytes[0], bytes[1], bytes[2]];
  }

  lemma FourByteForm(bytes: seq<Byte>)
    requires bytes != [] && 0xf0 <= bytes[0] < 0xf5 && DecodeChar(bytes).Some?
    ensures bytes[..DecodeChar(bytes).value.1] == EncodeChar(DecodeChar(bytes).value.0)
  {
    var w: int, x: int, y: int, z: int := bytes[0] - 0xf0, bytes[1] - 0x80, bytes[2] - 0x80, bytes[3] - 0x80;
    var v := w * 0x4_0000 + x * 0x1000 + y * 0x40 + z;
    assert v / 0x40 == w * 0x1000 + x * 0x40 + y && v % 0x40 == z;
    assert v / 0x1000 == w * 0x40 + x && v / 0x4_0000 == w;
    SixBits(v);
    assert bytes[..4] == [bytes[0], bytes[1], bytes[2], bytes[3]];
  }

  lemma CharForm(bytes: seq<Byte>)
    requires bytes != [] && DecodeChar(bytes).Some?
    ensures bytes[..DecodeChar(bytes).value.1] == EncodeChar(DecodeChar(bytes).value.0)
  {
    if bytes[0] < 0x80 {
      assert bytes[..1] == [bytes[0]];
    } else if bytes[0] < 0xe0 {
      TwoByteForm(bytes);
    } else if bytes[0] < 0xf0 {
      ThreeByteForm(bytes);
    } else {
      FourByteForm(bytes);
    }
  }

  /** Bytes are read as a text exactly when they are its encoding. */
  lemma {:induction false} DecodesIffEncoded(bytes: seq<Byte>, text: string)
    ensures Decode(bytes) == Some(text) <==> bytes == Encode(text)
    decreases |bytes|
  {
    hide EncodeChar, DecodeChar;
    TextBack(text);
    if bytes != [] && Decode(bytes) == Some(text) {
      var (c, count) := DecodeChar(bytes).value;
      CharForm(bytes);
      DecodesIffEncoded(bytes[count..], text[1..]);
      assert bytes == bytes[..count] + bytes[count..];
    }
  }
}

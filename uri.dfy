/** `encodeURIComponent` of ECMA-262 (its URI handling functions, section 19.2.6):
    every code point outside the unescaped set is written as its UTF-8 bytes,
    each as `%` and two upper-case hexadecimal digits. A reference decoder is
    the partner that shows the encoding loses nothing. */
module UriComponent {
  import opened Wrappers
  import opened JsString

  type byte = b: int | 0 <= b < 256

  /** The characters `encodeURIComponent` leaves as they are: ASCII letters,
      digits and `- _ . ! ~ * ' ( )`. */
  predicate IsUnescaped(c: char) {
    ('A' <= c <= 'Z') || ('a' <= c <= 'z') || ('0' <= c <= '9')
    || c == '-' || c == '_' || c == '.' || c == '!' || c == '~' || c == '*'
    || c == '\'' || c == '(' || c == ')'
  }

  predicate IsUpperHexDigit(c: char) {
    ('0' <= c <= '9') || ('A' <= c <= 'F')
  }

  /** The characters an encoded component can contain. */
  predicate IsEncodedChar(c: char) {
    IsUnescaped(c) || c == '%' || IsUpperHexDigit(c)
  }

  const HexDigits: string := "0123456789ABCDEF"

  function HexValue(c: char): (r: Option<nat>)
    ensures r.Some? ==> r.value < 16
  {
    if '0' <= c <= '9' then Some(c as int - '0' as int)
    else if 'A' <= c <= 'F' then Some(c as int - 'A' as int + 10)
    else if 'a' <= c <= 'f' then Some(c as int - 'a' as int + 10)
    else None
  }

  lemma HexDigitValue(d: nat)
    requires d < 16
    ensures IsUpperHexDigit(HexDigits[d]) && HexValue(HexDigits[d]) == Some(d)
  {
  }

  /** The UTF-8 encoding of one code point. */
  function Utf8(c: char): (bs: seq<byte>)
    ensures 1 <= |bs| <= 4
    ensures |bs| == 1 <==> c as int < 0x80
  {
    var v := c as int;
    if v < 0x80 then [v]
    else if v < 0x800 then [0xC0 + v / 64, 0x80 + v % 64]
    else if v < 0x10000 then [0xE0 + v / 4096, 0x80 + (v / 64) % 64, 0x80 + v % 64]
    else [0xF0 + v / 262144, 0x80 + (v / 4096) % 64, 0x80 + (v / 64) % 64, 0x80 + v % 64]
  }

  function Utf8Encode(s: string): seq<byte> {
    if s == [] then [] else Utf8(s[0]) + Utf8Encode(s[1..])
  }

  /** `%XX` for each byte. */
  function PercentBytes(bs: seq<byte>): (r: string)
    ensures |r| == 3 * |bs|
    ensures forall ch :: ch in r ==> ch == '%' || IsUpperHexDigit(ch)
  {
    if bs == [] then []
    else
      HexDigitValue(bs[0] / 16);
      HexDigitValue(bs[0] % 16);
      ['%', HexDigits[bs[0] / 16], HexDigits[bs[0] % 16]] + PercentBytes(bs[1..])
  }

  function EncodeChar(c: char): string {
    if IsUnescaped(c) then [c] else PercentBytes(Utf8(c))
  }

  /** `encodeURIComponent(s)`. */
  function Encode(s: string): (r: string)
    ensures |r| >= |s|
    ensures forall ch :: ch in r ==> IsEncodedChar(ch)
  {
    if s == [] then [] else EncodeChar(s[0]) + Encode(s[1..])
  }

  lemma {:induction false} EncodeAppend(a: string, b: string)
    ensures Encode(a + b) == Encode(a) + Encode(b)
  {
    if a != [] {
      assert (a + b)[0] == a[0];
      assert (a + b)[1..] == a[1..] + b;
      EncodeAppend(a[1..], b);
      calc {
        Encode(a + b);
        EncodeChar(a[0]) + Encode(a[1..] + b);
        EncodeChar(a[0]) + (Encode(a[1..]) + Encode(b));
        (EncodeChar(a[0]) + Encode(a[1..])) + Encode(b);
      }
    } else {
      assert a + b == b;
    }
  }

  /** A string is its own encoding exactly when every character is in the
      unescaped set; otherwise the encoding is strictly longer. */
  lemma {:induction false} EncodeFixedPoint(s: string)
    ensures Encode(s) == s <==> forall c :: c in s ==> IsUnescaped(c)
    ensures (exists c :: c in s && !IsUnescaped(c)) ==> |Encode(s)| > |s|
  {
    if s != [] {
      EncodeFixedPoint(s[1..]);
      if !IsUnescaped(s[0]) {
        assert |EncodeChar(s[0])| >= 3;
      } else {
        assert Encode(s) == [s[0]] + Encode(s[1..]);
      }
      if Encode(s) == s && IsUnescaped(s[0]) {
        assert Encode(s[1..]) == s[1..];
      }
      forall c | c in s && !IsUnescaped(c) ensures |Encode(s)| > |s| {
        if c != s[0] {
          assert c in s[1..];
        }
      }
    }
  }

  /** Decodes `%XX` triples and unescaped characters to bytes; anything else
      fails. */
  function PercentDecode(t: string): Option<seq<byte>>
    decreases |t|
  {
    if t == [] then Some([])
    else if t[0] == '%' then
      if |t| < 3 then None
      else
        match (HexValue(t[1]), HexValue(t[2]), PercentDecode(t[3..]))
        case (Some(hi), Some(lo), Some(rest)) => Some([hi * 16 + lo] + rest)
        case _ => None
    else if IsUnescaped(t[0]) then
      match PercentDecode(t[1..])
      case Some(rest) => Some([t[0] as int] + rest)
      case None => None
    else None
  }

  predicate IsContinuation(b: byte) {
    0x80 <= b < 0xC0
  }

  function ScalarChar(v: int, low: int): Option<char> {
    if 0 <= low <= v <= 0x10FFFF && !(0xD800 <= v < 0xE000) then Some(v as char) else None
  }

  /** Decodes the first code point of a well-formed UTF-8 sequence and says how
      many bytes it took; overlong forms and surrogates are refused. */
  function DecodeOne(bs: seq<byte>): (r: Option<(char, nat)>)
    requires |bs| > 0
    ensures r.Some? ==> 1 <= r.value.1 <= |bs|
  {
    var b0: int := bs[0];
    if b0 < 0x80 then Some((b0 as char, 1))
    else if 0xC0 <= b0 < 0xE0 && |bs| >= 2 && IsContinuation(bs[1]) then
      match ScalarChar((b0 - 0xC0) * 64 + (bs[1] as int - 0x80), 0x80)
      case Some(c) => Some((c, 2))
      case None => None
    else if 0xE0 <= b0 < 0xF0 && |bs| >= 3 && IsContinuation(bs[1]) && IsContinuation(bs[2]) then
      match ScalarChar(((b0 - 0xE0) * 64 + (bs[1] as int - 0x80)) * 64 + (bs[2] as int - 0x80), 0x800)
      case Some(c) => Some((c, 3))
      case None => None
    else if 0xF0 <= b0 < 0xF8 && |bs| >= 4
            && IsContinuation(bs[1]) && IsContinuation(bs[2]) && IsContinuation(bs[3]) then
      match ScalarChar((((b0 - 0xF0) * 64 + (bs[1] as int - 0x80)) * 64 + (bs[2] as int - 0x80)) * 64 + (bs[3] as int - 0x80), 0x10000)
      case Some(c) => Some((c, 4))
      case None => None
    else None
  }

  function Utf8Decode(bs: seq<byte>): Option<string>
    decreases |bs|
  {
    if bs == [] then Some([])
    else
      match DecodeOne(bs)
      case None => None
      case Some((c, n)) =>
        match Utf8Decode(bs[n..])
        case Some(rest) => Some([c] + rest)
        case None => None
  }

  /** The inverse of `encodeURIComponent`: percent-decoding, then UTF-8. */
  function Decode(t: string): Option<string> {
    match PercentDecode(t)
    case Some(bs) => Utf8Decode(bs)
    case None => None
  }

  /** `bs` in front of a decoded result; a failure stays a failure. */
  function Prepend(bs: seq<byte>, o: Option<seq<byte>>): Option<seq<byte>> {
    match o
    case Some(rest) => Some(bs + rest)
    case None => None
  }

  lemma PrependTwice(b: byte, bs: seq<byte>, o: Option<seq<byte>>)
    ensures Prepend([b], Prepend(bs, o)) == Prepend([b] + bs, o)
  {
    if o.Some? {
      assert [b] + (bs + o.value) == [b] + bs + o.value;
    }
  }

  lemma {:induction false} PercentDecodeBytes(bs: seq<byte>, t: string)
    ensures PercentDecode(PercentBytes(bs) + t) == Prepend(bs, PercentDecode(t))
  {
    if bs != [] {
      var u := PercentBytes(bs[1..]) + t;
      calc {
        PercentDecode(PercentBytes(bs) + t);
        { PercentBytesCons(bs, t); }
        PercentDecode(PercentBytes([bs[0]]) + u);
        { PercentDecodeTriple(bs[0], u); }
        Prepend([bs[0]], PercentDecode(u));
        { PercentDecodeBytes(bs[1..], t); }
        Prepend([bs[0]], Prepend(bs[1..], PercentDecode(t)));
        { PrependTwice(bs[0], bs[1..], PercentDecode(t)); assert [bs[0]] + bs[1..] == bs; }
        Prepend(bs, PercentDecode(t));
      }
    } else {
      assert PercentBytes(bs) + t == t;
      if PercentDecode(t).Some? {
        assert bs + PercentDecode(t).value == PercentDecode(t).value;
      }
    }
  }

  lemma PercentBytesCons(bs: seq<byte>, t: string)
    requires bs != []
    ensures PercentBytes(bs) + t == PercentBytes([bs[0]]) + (PercentBytes(bs[1..]) + t)
  {
    PercentBytesHead(bs);
    ConcatAssoc(PercentBytes([bs[0]]), PercentBytes(bs[1..]), t);
  }

  lemma PercentBytesHead(bs: seq<byte>)
    requires bs != []
    ensures PercentBytes(bs) == PercentBytes([bs[0]]) + PercentBytes(bs[1..])
  {
    assert [bs[0]][1..] == [];
  }

  /** One `%XX` triple decodes to its byte, ahead of whatever follows. */
  lemma PercentDecodeTriple(b: byte, u: string)
    ensures PercentDecode(PercentBytes([b]) + u) == Prepend([b], PercentDecode(u))
  {
    var hi, lo := b / 16, b % 16;
    HexDigitValue(hi);
    HexDigitValue(lo);
    var v := PercentBytes([b]) + u;
    assert v == ['%', HexDigits[hi], HexDigits[lo]] + u;
    assert v[3..] == u;
  }

  lemma PercentDecodeChar(c: char, t: string)
    ensures PercentDecode(EncodeChar(c) + t) == Prepend(Utf8(c), PercentDecode(t))
  {
    if IsUnescaped(c) {
      assert ([c] + t)[1..] == t;
    } else {
      PercentDecodeBytes(Utf8(c), t);
    }
  }

  lemma {:induction false} PercentDecodeEncode(s: string)
    ensures PercentDecode(Encode(s)) == Some(Utf8Encode(s))
  {
    if s != [] {
      PercentDecodeEncode(s[1..]);
      PercentDecodeChar(s[0], Encode(s[1..]));
    }
  }

  lemma DecodeOneUtf8(c: char, rest: seq<byte>)
    ensures DecodeOne(Utf8(c) + rest) == Some((c, |Utf8(c)|))
  {
    var v := c as int;
    var bs := Utf8(c) + rest;
    if v < 0x80 {
    } else if v < 0x800 {
      assert (v / 64) * 64 + v % 64 == v;
    } else if v < 0x10000 {
      assert v / 4096 == (v / 64) / 64;
      assert (v / 64) == (v / 4096) * 64 + (v / 64) % 64;
      assert ((v / 4096) * 64 + (v / 64) % 64) * 64 + v % 64 == v;
    } else {
      assert v / 4096 == (v / 64) / 64;
      assert v / 262144 == (v / 4096) / 64;
      assert (v / 4096) == (v / 262144) * 64 + (v / 4096) % 64;
      assert (v / 64) == (v / 4096) * 64 + (v / 64) % 64;
      assert (((v / 262144) * 64 + (v / 4096) % 64) * 64 + (v / 64) % 64) * 64 + v % 64 == v;
    }
  }

  lemma {:induction false} Utf8DecodeEncode(s: string)
    ensures Utf8Decode(Utf8Encode(s)) == Some(s)
  {
    if s != [] {
      var bs := Utf8Encode(s);
      DecodeOneUtf8(s[0], Utf8Encode(s[1..]));
      assert bs[|Utf8(s[0])|..] == Utf8Encode(s[1..]);
      Utf8DecodeEncode(s[1..]);
      assert [s[0]] + s[1..] == s;
    }
  }

  /** Decoding an encoded component gives back exactly the original string. */
  lemma DecodeEncode(s: string)
    ensures Decode(Encode(s)) == Some(s)
  {
    PercentDecodeEncode(s);
    Utf8DecodeEncode(s);
  }

  /** Hence no two strings share an encoding. */
  lemma EncodeInjective(a: string, b: string)
    requires Encode(a) == Encode(b)
    ensures a == b
  {
    DecodeEncode(a);
    DecodeEncode(b);
  }
}

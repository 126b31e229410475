/**
 * UTF-8 as Python's `str.encode('utf-8')` and strict `bytes.decode('utf-8')`
 * (and Rust's `str` byte representation) treat it. Dafny's `char` ranges over
 * Unicode scalar values, which is exactly what a strict UTF-8 codec accepts.
 */
module Utf8 {
  import opened Common

  /** The 1 to 4 bytes of one scalar value. */
  function EncodeChar(c: char): (r: seq<byte>)
    ensures 1 <= |r| <= 4
  {
    var cp := c as int;
    if cp < 0x80 then
      [cp]
    else if cp < 0x800 then
      [0xC0 + cp / 0x40, 0x80 + cp % 0x40]
    else if cp < 0x10000 then
      [0xE0 + cp / 0x1000, 0x80 + (cp / 0x40) % 0x40, 0x80 + cp % 0x40]
    else
      [0xF0 + cp / 0x40000, 0x80 + (cp / 0x1000) % 0x40, 0x80 + (cp / 0x40) % 0x40, 0x80 + cp % 0x40]
  }

  /** The UTF-8 bytes of a whole string. */
  function Encode(s: string): (r: seq<byte>)
    ensures |s| <= |r| <= 4 * |s|
    decreases |s|, 1
  {
    if s == [] then [] else EncodeNonEmpty(s)
  }

  /** The UTF-8 bytes of a non-empty string: its first value's, then the rest's. */
  function EncodeNonEmpty(s: string): (r: seq<byte>)
    requires s != []
    ensures |s| <= |r| <= 4 * |s|
    decreases |s|, 0
  {
    EncodeChar(s[0]) + Encode(s[1..])
  }

  /** Only NUL encodes to a zero byte, and it encodes to that byte alone. */
  lemma EncodeCharZero(c: char)
    ensures c == '\0' <==> EncodeChar(c) == [0]
    ensures c != '\0' ==> NoZero(EncodeChar(c))
  {
  }

  /** The UTF-8 bytes of NUL-free text hold no zero byte. */
  lemma {:induction false} EncodeNoZero(s: string)
    requires forall i :: 0 <= i < |s| ==> s[i] != '\0'
    ensures NoZero(Encode(s))
  {
    if s != [] {
      EncodeCharZero(s[0]);
      EncodeNoZero(s[1..]);
      var e, r := EncodeChar(s[0]), Encode(s[1..]);
      forall i | 0 <= i < |e + r| ensures (e + r)[i] != 0 {
        if i >= |e| { assert (e + r)[i] == r[i - |e|]; }
      }
    }
  }

  predicate IsCont(b: byte) { 0x80 <= b < 0xC0 }

  /**
   * The first scalar value of `bs` and how many bytes it takes, or None when
   * `bs` does not start with a well-formed sequence (Table 3-7 of the Unicode
   * Standard: no overlong forms, no surrogates, nothing above U+10FFFF).
   */
  function DecodeFirst(bs: seq<byte>): (r: Option<(char, nat)>)
    requires |bs| > 0
    ensures r.Some? ==> 1 <= r.value.1 <= |bs| && r.value.1 <= 4
  {
    var b0: int := bs[0];
    if b0 < 0x80 then
      Some((b0 as char, 1))
    else if 0xC2 <= b0 <= 0xDF then
      if |bs| >= 2 && IsCont(bs[1]) then
        Some((((b0 - 0xC0) * 0x40 + (bs[1] as int - 0x80)) as char, 2))
      else None
    else if 0xE0 <= b0 <= 0xEF then
      var lo := if b0 == 0xE0 then 0xA0 else 0x80;
      var hi := if b0 == 0xED then 0x9F else 0xBF;
      if |bs| >= 3 && lo <= bs[1] <= hi && IsCont(bs[2]) then
        Some((((b0 - 0xE0) * 0x1000 + (bs[1] as int - 0x80) * 0x40 + (bs[2] as int - 0x80)) as char, 3))
      else None
    else if 0xF0 <= b0 <= 0xF4 then
      var lo := if b0 == 0xF0 then 0x90 else 0x80;
      var hi := if b0 == 0xF4 then 0x8F else 0xBF;
      if |bs| >= 4 && lo <= bs[1] <= hi && IsCont(bs[2]) && IsCont(bs[3]) then
        Some((((b0 - 0xF0) * 0x40000 + (bs[1] as int - 0x80) * 0x1000 + (bs[2] as int - 0x80) * 0x40 + (bs[3] as int - 0x80)) as char, 4))
      else None
    else
      None
  }

  /** Strict decoding: None exactly where Python raises UnicodeDecodeError. */
  function Decode(bs: seq<byte>): (r: Option<string>)
    decreases |bs|, 1
  {
    if bs == [] then Some("") else DecodeNonEmpty(bs)
  }

  /** Decoding a non-empty sequence: its first value, then the rest. */
  function DecodeNonEmpty(bs: seq<byte>): (r: Option<string>)
    requires bs != []
    decreases |bs|, 0
  {
    match DecodeFirst(bs)
    case None => None
    case Some((c, n)) =>
      match Decode(bs[n..])
      case None => None
      case Some(rest) => Some([c] + rest)
  }

  /** A two-byte sequence decodes back to its scalar value. */
  lemma DecodeFirstEncodeChar2(c: char, rest: seq<byte>)
    requires 0x80 <= c as int < 0x800
    ensures DecodeFirst(EncodeChar(c) + rest) == Some((c, 2))
  {
    var cp := c as int;
    var bs := EncodeChar(c) + rest;
    assert bs[0] == 0xC0 + cp / 0x40 && bs[1] == 0x80 + cp % 0x40;
    assert (cp / 0x40) * 0x40 + cp % 0x40 == cp;
  }

  /** A three-byte sequence decodes back to its scalar value. */
  lemma DecodeFirstEncodeChar3(c: char, rest: seq<byte>)
    requires 0x800 <= c as int < 0x10000
    ensures DecodeFirst(EncodeChar(c) + rest) == Some((c, 3))
  {
    var cp := c as int;
    var bs := EncodeChar(c) + rest;
    var q := cp / 0x40;
    assert bs[0] == 0xE0 + q / 0x40 && bs[1] == 0x80 + q % 0x40 && bs[2] == 0x80 + cp % 0x40 by {
      assert cp / 0x1000 == q / 0x40;
    }
    assert q * 0x40 + cp % 0x40 == cp;
    assert (q / 0x40) * 0x40 + q % 0x40 == q;
  }

  /** A four-byte sequence decodes back to its scalar value. */
  lemma DecodeFirstEncodeChar4(c: char, rest: seq<byte>)
    requires 0x10000 <= c as int
    ensures DecodeFirst(EncodeChar(c) + rest) == Some((c, 4))
  {
    var cp := c as int;
    var bs := EncodeChar(c) + rest;
    var q := cp / 0x40;
    var q2 := q / 0x40;
    assert cp / 0x1000 == q2 && cp / 0x40000 == q2 / 0x40;
    assert bs[0] == 0xF0 + q2 / 0x40 && bs[1] == 0x80 + q2 % 0x40 && bs[2] == 0x80 + q % 0x40 && bs[3] == 0x80 + cp % 0x40;
    assert q * 0x40 + cp % 0x40 == cp;
    assert q2 * 0x40 + q % 0x40 == q;
    assert (q2 / 0x40) * 0x40 + q2 % 0x40 == q2;
  }

  /** Decoding the encoding of one scalar value gives it back, whatever follows. */
  lemma DecodeFirstEncodeChar(c: char, rest: seq<byte>)
    ensures DecodeFirst(EncodeChar(c) + rest) == Some((c, |EncodeChar(c)|))
  {
    var cp := c as int;
    if cp < 0x80 {
      assert (EncodeChar(c) + rest)[0] == cp;
    } else if cp < 0x800 {
      DecodeFirstEncodeChar2(c, rest);
    } else if cp < 0x10000 {
      DecodeFirstEncodeChar3(c, rest);
    } else {
      DecodeFirstEncodeChar4(c, rest);
    }
  }

  /** A successful first decode is the encoding of the decoded value. */
  lemma EncodeCharDecodeFirst(bs: seq<byte>)
    requires |bs| > 0 && DecodeFirst(bs).Some?
    ensures EncodeChar(DecodeFirst(bs).value.0) == bs[..DecodeFirst(bs).value.1]
  {
    var b0: int := bs[0];
    var cp := DecodeFirst(bs).value.0 as int;
    if b0 < 0x80 {
    } else if b0 <= 0xDF {
      var lo := bs[1] as int - 0x80;
      assert cp == (b0 - 0xC0) * 0x40 + lo;
      assert cp / 0x40 == b0 - 0xC0 && cp % 0x40 == lo;
    } else if b0 <= 0xEF {
      var m, lo := bs[1] as int - 0x80, bs[2] as int - 0x80;
      var q := (b0 - 0xE0) * 0x40 + m;
      assert cp == q * 0x40 + lo;
      assert cp / 0x40 == q && cp % 0x40 == lo;
      assert q / 0x40 == b0 - 0xE0 && q % 0x40 == m;
      assert cp / 0x1000 == q / 0x40;
    } else {
      var h, m, lo := bs[1] as int - 0x80, bs[2] as int - 0x80, bs[3] as int - 0x80;
      var q2 := (b0 - 0xF0) * 0x40 + h;
      var q := q2 * 0x40 + m;
      assert cp == q * 0x40 + lo;
      assert cp / 0x40 == q && cp % 0x40 == lo;
      assert q / 0x40 == q2 && q % 0x40 == m;
      assert q2 / 0x40 == b0 - 0xF0 && q2 % 0x40 == h;
      assert cp / 0x1000 == q2 && cp / 0x40000 == q2 / 0x40;
    }
  }

  lemma {:induction false} DecodeEncode(s: string)
    ensures Decode(Encode(s)) == Some(s)
  {
    if s != [] {
      var e := EncodeChar(s[0]);
      assert Encode(s) == e + Encode(s[1..]);
      DecodeFirstEncodeChar(s[0], Encode(s[1..]));
      assert Encode(s)[|e|..] == Encode(s[1..]);
      assert Decode(Encode(s)) == DecodeNonEmpty(Encode(s));
      DecodeEncode(s[1..]);
      assert [s[0]] + s[1..] == s;
    }
  }

  /** A successful decode is the first value followed by the decode of the rest. */
  lemma DecodeCons(bs: seq<byte>)
    requires bs != [] && Decode(bs).Some?
    ensures DecodeFirst(bs).Some?
    ensures var (c, n) := DecodeFirst(bs).value;
      Decode(bs[n..]).Some? && Decode(bs).value == [c] + Decode(bs[n..]).value
  {
    assert Decode(bs) == DecodeNonEmpty(bs);
  }

  /** The encoding of a string is the encoding of its first value followed by the rest's. */
  lemma EncodeCons(c: char, t: string)
    ensures Encode([c] + t) == EncodeChar(c) + Encode(t)
  {
    assert ([c] + t)[0] == c && ([c] + t)[1..] == t;
  }

  lemma {:induction false} EncodeDecode(bs: seq<byte>)
    requires Decode(bs).Some?
    ensures Encode(Decode(bs).value) == bs
    decreases |bs|
  {
    if bs != [] {
      DecodeCons(bs);
      var (c, n) := DecodeFirst(bs).value;
      var t := Decode(bs[n..]).value;
      calc {
        Encode(Decode(bs).value);
        Encode([c] + t);
        { EncodeCons(c, t); }
        EncodeChar(c) + Encode(t);
        { EncodeCharDecodeFirst(bs); EncodeDecode(bs[n..]); }
        bs[..n] + bs[n..];
        bs;
      }
    }
  }

  /** On ASCII text the UTF-8 bytes are the code points themselves. */
  lemma {:induction false} EncodeAscii(s: string)
    requires forall i :: 0 <= i < |s| ==> s[i] as int < 0x80
    ensures |Encode(s)| == |s|
    ensures forall i :: 0 <= i < |s| ==> Encode(s)[i] == s[i] as int
  {
    if s != [] {
      EncodeAscii(s[1..]);
      assert Encode(s) == [s[0] as int] + Encode(s[1..]);
    }
  }

  /** Encoding distributes over concatenation. */
  lemma {:induction false} EncodeAppend(a: string, b: string)
    ensures Encode(a + b) == Encode(a) + Encode(b)
  {
    if a == [] {
      assert a + b == b;
    } else {
      calc {
        Encode(a + b);
        == { assert (a + b)[0] == a[0] && (a + b)[1..] == a[1..] + b; }
        EncodeChar(a[0]) + Encode(a[1..] + b);
        == { EncodeAppend(a[1..], b); }
        EncodeChar(a[0]) + (Encode(a[1..]) + Encode(b));
        Encode(a) + Encode(b);
      }
    }
  }
}

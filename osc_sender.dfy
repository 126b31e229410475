/**
 * The OSC encoder of the Python sender script: `encode_osc_string` and
 * `encode_osc_message` (test_osc_sender.py).
 */
module OscSender {
  import opened Common
  import Utf8
  import Int32

  /**
   * A Python argument as `encode_osc_message` tells them apart with
   * `isinstance`: str, int, float, bool, or anything else. A float is carried
   * as the four bytes `struct.pack('>f', x)` gives for it.
   */
  datatype Arg = Str(s: string) | Int(n: int) | Float(raw: Word) | Bool(b: bool) | Other

  /** `struct.pack('>i', n)` raises `struct.error` outside int32; nothing catches it. */
  datatype EncodeError = IntOutOfRange(n: int)

  /** `encode_osc_string`: the UTF-8 bytes, a NUL, then NULs up to a multiple of four bytes. */
  function EncodeOscString(s: string): seq<byte>
  {
    var u := Utf8.Encode(s);
    u + [0] + Zeros(Padding(|u|))
  }

  /**
   * An OSC-string is the UTF-8 bytes followed by one to four zero bytes,
   * the least number that makes its length a multiple of four.
   */
  lemma OscStringLayout(s: string)
    ensures var u := Utf8.Encode(s);
      && |EncodeOscString(s)| == PaddedLength(|u|)
      && EncodeOscString(s)[..|u|] == u
      && AllZero(EncodeOscString(s)[|u|..])
  {
    var u := Utf8.Encode(s);
    var z := Zeros(Padding(|u|));
    PaddingIsAlignment(|u|);
    ZerosAreZero(Padding(|u|));
    assert EncodeOscString(s)[..|u|] == u;
    assert EncodeOscString(s)[|u|..] == [0] + z;
  }

  /**
   * `isinstance(arg, int)`: bool is a subclass of int in Python, so this holds
   * for bools too, and the `int` branch of the encoder catches them before the
   * `bool` branch is reached.
   */
  predicate IsPyInt(a: Arg) { a.Int? || a.Bool? }

  /** The integer `struct.pack` sees: True and False are 1 and 0. */
  function PyIntValue(a: Arg): int
    requires IsPyInt(a)
  {
    if a.Int? then a.n else if a.b then 1 else 0
  }

  /** The type-tag characters one argument contributes. */
  function ArgTag(a: Arg): string
  {
    if a.Str? then "s"
    else if IsPyInt(a) then "i"
    else if a.Float? then "f"
    else ""
  }

  /** The payload bytes one argument contributes, or the error `struct.pack` raises. */
  function ArgPayload(a: Arg): Result<seq<byte>, EncodeError>
  {
    if a.Str? then Ok(EncodeOscString(a.s))
    else if IsPyInt(a) then
      if Int32.InRange(PyIntValue(a)) then Ok(Int32.Pack(PyIntValue(a))) else Err(IntOutOfRange(PyIntValue(a)))
    else if a.Float? then Ok(a.raw)
    else Ok([])
  }

  /** The type-tag characters of all arguments, in order. */
  function TypeTags(args: seq<Arg>): string
  {
    if args == [] then "" else ArgTag(args[0]) + TypeTags(args[1..])
  }

  /** The concatenated payloads, or the error raised at the first int out of range. */
  function Payload(args: seq<Arg>): Result<seq<byte>, EncodeError>
  {
    if args == [] then Ok([])
    else match ArgPayload(args[0])
      case Err(e) => Err(e)
      case Ok(p) =>
        match Payload(args[1..])
        case Err(e) => Err(e)
        case Ok(q) => Ok(p + q)
  }

  /** What `encode_osc_message(address, args)` returns, or the error it raises. */
  function MessageBytes(address: string, args: seq<Arg>): Result<seq<byte>, EncodeError>
  {
    match Payload(args)
    case Err(e) => Err(e)
    case Ok(p) => Ok(EncodeOscString(address) + EncodeOscString("," + TypeTags(args)) + p)
  }

  /** `encode_osc_message`: one pass over the arguments growing the tag and the payload. */
  method EncodeOscMessage(address: string, args: seq<Arg>) returns (r: Result<seq<byte>, EncodeError>)
    ensures r == MessageBytes(address, args)
  {
    var addrBytes := EncodeOscString(address);
    var typeTag := ",";
    var argBytes: seq<byte> := [];
    for i := 0 to |args|
      invariant typeTag == "," + TypeTags(args[..i])
      invariant Payload(args[..i]) == Ok(argBytes)
    {
      var arg := args[i];
      TagsSnoc(args[..i], arg);
      PayloadSnoc(args[..i], arg);
      assert args[..i + 1] == args[..i] + [arg];
      if arg.Str? {
        typeTag := typeTag + "s";
        argBytes := argBytes + EncodeOscString(arg.s);
      } else if IsPyInt(arg) {
        var n := PyIntValue(arg);
        if !Int32.InRange(n) {
          PayloadErrExtends(args[..i + 1], args[i + 1..]);
          assert args[..i + 1] + args[i + 1..] == args;
          return Err(IntOutOfRange(n));
        }
        typeTag := typeTag + "i";
        argBytes := argBytes + Int32.Pack(n);
      } else if arg.Float? {
        typeTag := typeTag + "f";
        argBytes := argBytes + arg.raw;
      } else {
        // Neither str, int nor float. The source's `bool` branch (tags T/F,
        // no payload) would come next, but IsPyInt already holds for every
        // bool, so all that reaches here is skipped.
        assert ArgPayload(arg) == Ok([]);
        assert argBytes + [] == argBytes;
      }
    }
    assert args[..|args|] == args;
    var typeTagBytes := EncodeOscString(typeTag);
    return Ok(addrBytes + typeTagBytes + argBytes);
  }

  lemma {:induction false} TagsSnoc(args: seq<Arg>, a: Arg)
    ensures TypeTags(args + [a]) == TypeTags(args) + ArgTag(a)
  {
    if args != [] {
      assert (args + [a])[1..] == args[1..] + [a];
      TagsSnoc(args[1..], a);
    }
  }

  lemma {:induction false} PayloadSnoc(args: seq<Arg>, a: Arg)
    ensures Payload(args + [a]) ==
      match Payload(args)
      case Err(e) => Err(e)
      case Ok(p) =>
        match ArgPayload(a)
        case Err(e) => Err(e)
        case Ok(q) => Ok(p + q)
  {
    if args == [] {
      assert [] + [a] == [a];
      assert [a][1..] == [];
      if ArgPayload(a).Ok? {
        var q := ArgPayload(a).value;
        assert q + [] == [] + q;
      }
    } else {
      assert (args + [a])[1..] == args[1..] + [a];
      PayloadSnoc(args[1..], a);
      if ArgPayload(args[0]).Ok? && Payload(args[1..]).Ok? && ArgPayload(a).Ok? {
        var p0, p1, q := ArgPayload(args[0]).value, Payload(args[1..]).value, ArgPayload(a).value;
        assert p0 + (p1 + q) == (p0 + p1) + q;
      }
    }
  }

  /** Once the prefix has failed, whatever follows fails with the same error. */
  lemma {:induction false} PayloadErrExtends(args: seq<Arg>, more: seq<Arg>)
    requires Payload(args).Err?
    ensures Payload(args + more) == Payload(args)
  {
    assert args != [];
    assert (args + more)[0] == args[0];
    assert (args + more)[1..] == args[1..] + more;
    if ArgPayload(args[0]).Ok? {
      PayloadErrExtends(args[1..], more);
    }
  }

  /** The arguments the encoder does not skip: everything but `Other`. */
  function Supported(args: seq<Arg>): (r: seq<Arg>)
    ensures |r| <= |args|
    ensures forall a :: a in r ==> a in args && !a.Other?
  {
    if args == [] then []
    else if args[0].Other? then Supported(args[1..])
    else [args[0]] + Supported(args[1..])
  }

  /** Every encoded payload is a whole number of 4-byte units. */
  lemma {:induction false} PayloadAligned(args: seq<Arg>)
    requires Payload(args).Ok?
    ensures |Payload(args).value| % 4 == 0
  {
    if args != [] {
      PayloadAligned(args[1..]);
      var p, q := ArgPayload(args[0]).value, Payload(args[1..]).value;
      assert |p| % 4 == 0 by {
        if args[0].Str? { OscStringAligned(args[0].s); }
      }
      assert Payload(args).value == p + q;
      SumAligned(|p|, |q|);
    }
  }

  lemma SumAligned(x: nat, y: nat)
    requires x % 4 == 0 && y % 4 == 0
    ensures (x + y) % 4 == 0
  {
    assert x == 4 * (x / 4) && y == 4 * (y / 4);
    assert x + y == 4 * (x / 4 + y / 4);
  }

  /** The whole datagram is a whole number of 4-byte units. */
  lemma MessageAligned(address: string, args: seq<Arg>)
    requires MessageBytes(address, args).Ok?
    ensures |MessageBytes(address, args).value| % 4 == 0
  {
    PayloadAligned(args);
    OscStringAligned(address);
    OscStringAligned("," + TypeTags(args));
    var a, t, p := EncodeOscString(address), EncodeOscString("," + TypeTags(args)), Payload(args).value;
    assert MessageBytes(address, args).value == a + t + p;
    SumAligned(|a|, |t|);
    SumAligned(|a + t|, |p|);
  }

  /** An OSC-string is a whole number of 4-byte units. */
  lemma OscStringAligned(s: string)
    ensures |EncodeOscString(s)| % 4 == 0
  {
    OscStringLayout(s);
    PaddedLengthBounds(|Utf8.Encode(s)|);
  }

  /** One tag character per supported argument, none for the skipped ones, and never T or F. */
  lemma {:induction false} TagsOnePerSupportedArg(args: seq<Arg>)
    ensures TypeTags(args) == TypeTags(Supported(args))
    ensures |TypeTags(args)| == |Supported(args)|
    ensures forall k :: 0 <= k < |TypeTags(args)| ==> TypeTags(args)[k] in "sif"
    ensures 'T' !in TypeTags(args) && 'F' !in TypeTags(args)
    ensures forall k :: 0 <= k < |Supported(args)| ==>
      TypeTags(args)[k] == (if Supported(args)[k].Str? then 's' else if Supported(args)[k].Float? then 'f' else 'i')
  {
    if args != [] {
      TagsOnePerSupportedArg(args[1..]);
      if !args[0].Other? {
        assert Supported(args)[0] == args[0];
        assert Supported(args)[1..] == Supported(args[1..]);
      }
    }
  }

  /** Skipped arguments add no payload bytes either. */
  lemma {:induction false} PayloadIgnoresOther(args: seq<Arg>)
    ensures Payload(args) == Payload(Supported(args))
  {
    if args != [] {
      PayloadIgnoresOther(args[1..]);
      if !args[0].Other? {
        assert Supported(args)[0] == args[0];
        assert Supported(args)[1..] == Supported(args[1..]);
      } else if Payload(args[1..]).Ok? {
        assert [] + Payload(args[1..]).value == Payload(args[1..]).value;
      }
    }
  }

  /** A bool takes the int branch: tag `i` and the four bytes of 0 or 1. */
  lemma BoolEncodedAsInt(b: bool)
    ensures ArgTag(Bool(b)) == "i"
    ensures ArgPayload(Bool(b)) == Ok([0, 0, 0, if b then 1 else 0])
  {
  }

  /** Encoding fails exactly when some int argument lies outside int32 (bools never do). */
  lemma {:induction false} PayloadFailsIffIntOutOfRange(args: seq<Arg>)
    ensures Payload(args).Err? <==> exists i :: 0 <= i < |args| && args[i].Int? && !Int32.InRange(args[i].n)
  {
    if args != [] {
      PayloadFailsIffIntOutOfRange(args[1..]);
      if Payload(args).Err? && ArgPayload(args[0]).Ok? {
        var i :| 0 <= i < |args[1..]| && args[1..][i].Int? && !Int32.InRange(args[1..][i].n);
        assert args[i + 1] == args[1..][i];
      }
      if exists i :: 0 <= i < |args| && args[i].Int? && !Int32.InRange(args[i].n) {
        var i :| 0 <= i < |args| && args[i].Int? && !Int32.InRange(args[i].n);
        if i > 0 {
          assert args[1..][i - 1] == args[i];
        }
      }
    }
  }

  /** `encode_osc_message("/chatbox/typing", [True])`, as the sender script's first test sends it. */
  lemma TypingScenario()
    ensures MessageBytes("/chatbox/typing", [Bool(true)]).Ok?
    ensures var r := MessageBytes("/chatbox/typing", [Bool(true)]).value;
      && |r| == 24
      && (forall i :: 0 <= i < 15 ==> r[i] == "/chatbox/typing"[i] as int)
      && r[15..] == [0x00, 0x2C, 0x69, 0x00, 0x00, 0x00, 0x00, 0x00, 0x01]
  {
    TypingBytes("/chatbox/typing");
  }

  lemma TypingBytes(address: string)
    requires address == "/chatbox/typing"
    ensures MessageBytes(address, [Bool(true)]).Ok?
    ensures var r := MessageBytes(address, [Bool(true)]).value;
      && |r| == 24
      && (forall i :: 0 <= i < 15 ==> r[i] == address[i] as int)
      && r[15..] == [0x00, 0x2C, 0x69, 0x00, 0x00, 0x00, 0x00, 0x00, 0x01]
  {
    var a := EncodeOscString(address);
    assert |a| == 16 && a[15] == 0 && forall i :: 0 <= i < 15 ==> a[i] == address[i] as int by {
      Utf8.EncodeAscii(address);
      OscStringLayout(address);
      assert |Utf8.Encode(address)| == 15;
      assert PaddedLength(15) == 16;
      assert a[..15] == Utf8.Encode(address);
      assert a[15..][0] == a[15];
    }
    var t := EncodeOscString(",i");
    assert t == [0x2C, 0x69, 0x00, 0x00] by {
      assert Utf8.Encode(",i") == [0x2C, 0x69];
    }
    assert TypeTags([Bool(true)]) == "i";
    assert "," + TypeTags([Bool(true)]) == ",i";
    assert Payload([Bool(true)]) == Ok([0, 0, 0, 1]) by {
      assert Int32.Pack(1) == [0, 0, 0, 1];
      assert [Bool(true)][1..] == [];
      assert [0, 0, 0, 1] + [] == [0, 0, 0, 1];
    }
    var r := MessageBytes(address, [Bool(true)]).value;
    assert r == a + t + [0, 0, 0, 1];
    assert r[..15] == a[..15];
    assert r[15..] == [a[15]] + t + [0, 0, 0, 1];
  }
}

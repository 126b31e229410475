/**
 * The sender's encoder against the receiver's decoder: what
 * `decode_osc_message(encode_osc_message(address, args))` gives back, and what
 * the decoder makes of the hand-built datagrams of the integration workflow.
 */
module OscRoundTrip {
  import opened Common
  import Utf8
  import Int32
  import opened OscSender
  import opened OscReceiver

  predicate NulFree(s: string) { forall i :: 0 <= i < |s| ==> s[i] != '\0' }

  /** An argument the round trip holds for: a NUL-free string, an int32 int, or anything else. */
  predicate EncodableArg(a: Arg)
  {
    (a.Str? ==> NulFree(a.s)) && (a.Int? ==> Int32.InRange(a.n))
  }

  predicate EncodableArgs(args: seq<Arg>)
  {
    forall i :: 0 <= i < |args| ==> EncodableArg(args[i])
  }

  /** What the receiver reads back for one argument; a bool comes back as the int 0 or 1. */
  function ExpectedOf(a: Arg): seq<Value>
  {
    match a
    case Str(s) => [VStr(s)]
    case Int(n) => [VInt(n)]
    case Bool(b) => [VInt(if b then 1 else 0)]
    case Float(raw) => [VFloat(raw)]
    case Other => []
  }

  function Expected(args: seq<Arg>): seq<Value>
  {
    if args == [] then [] else ExpectedOf(args[0]) + Expected(args[1..])
  }

  /** Bytes `e` at `offset` that start with `u` and a zero put `u` at `offset` and a zero after it. */
  lemma PrefixInSlice(data: seq<byte>, offset: nat, e: seq<byte>, u: seq<byte>)
    requires offset + |e| <= |data| && data[offset..offset + |e|] == e
    requires |u| < |e| && e[..|u|] == u && e[|u|] == 0
    ensures offset + |u| < |data| && data[offset..offset + |u|] == u && data[offset + |u|] == 0
  {
    assert data[offset..offset + |u|] == e[..|u|];
    assert data[offset + |u|] == e[|u|];
  }

  /** An OSC-string of a NUL-free string decodes back to it, wherever it stands in the data. */
  lemma DecodeEncodedString(data: seq<byte>, offset: nat, s: string)
    requires NulFree(s)
    requires offset + |EncodeOscString(s)| <= |data|
    requires data[offset..offset + |EncodeOscString(s)|] == EncodeOscString(s)
    ensures DecodeOscString(data, offset) == Returned(StringRead(Some(s), offset + |EncodeOscString(s)|))
  {
    var e := EncodeOscString(s);
    var u := Utf8.Encode(s);
    OscStringLayout(s);
    Utf8.EncodeNoZero(s);
    assert e[|u|] == 0 by {
      assert e[|u|] == e[|u|..][0];
    }
    PrefixInSlice(data, offset, e, u);
    Utf8.DecodeEncode(s);
    DecodeOscStringAt(data, offset, offset + |u|, u, s);
  }

  /** An `i` or `f` tag over four bytes at the cursor. */
  lemma DecodeWordArg(data: seq<byte>, offset: nat, c: char, w: Word, restTags: string)
    requires c == 'i' || c == 'f'
    requires offset + 4 <= |data| && data[offset..offset + 4] == w
    ensures DecodeArgs(data, [c] + restTags, offset)
         == Prepend(if c == 'i' then VInt(Int32.Unpack(w)) else VFloat(w), DecodeArgs(data, restTags, offset + 4))
  {
    assert ([c] + restTags)[0] == c && ([c] + restTags)[1..] == restTags;
  }

  /** An `s` tag over an OSC-string at the cursor. */
  lemma DecodeStrArg(data: seq<byte>, offset: nat, s: string, restTags: string)
    requires NulFree(s)
    requires offset + |EncodeOscString(s)| <= |data|
    requires data[offset..offset + |EncodeOscString(s)|] == EncodeOscString(s)
    ensures DecodeArgs(data, "s" + restTags, offset)
         == Prepend(VStr(s), DecodeArgs(data, restTags, offset + |EncodeOscString(s)|))
  {
    assert ("s" + restTags)[0] == 's' && ("s" + restTags)[1..] == restTags;
    DecodeEncodedString(data, offset, s);
  }

  /** Encodable arguments always encode: only an out-of-range int makes the payload fail. */
  lemma EncodablePayloadOk(args: seq<Arg>)
    requires EncodableArgs(args)
    ensures Payload(args).Ok?
  {
    PayloadFailsIffIntOutOfRange(args);
    forall i | 0 <= i < |args| ensures !(args[i].Int? && !Int32.InRange(args[i].n)) {
      assert EncodableArg(args[i]);
    }
  }

  /** A string: its OSC-string reads back under `s`. */
  lemma DecodeStrOf(data: seq<byte>, offset: nat, a: Arg, p: seq<byte>, restTags: string)
    requires a.Str? && NulFree(a.s) && p == EncodeOscString(a.s)
    requires offset + |p| <= |data| && data[offset..offset + |p|] == p
    ensures DecodeArgs(data, ArgTag(a) + restTags, offset)
         == PrependAll(ExpectedOf(a), DecodeArgs(data, restTags, offset + |p|))
  {
    DecodeStrArg(data, offset, a.s, restTags);
  }

  /** An int or a bool: its four packed bytes read back under `i` as the int (1 or 0 for a bool). */
  lemma DecodePyIntOf(data: seq<byte>, offset: nat, a: Arg, p: seq<byte>, restTags: string)
    requires IsPyInt(a) && Int32.InRange(PyIntValue(a)) && p == Int32.Pack(PyIntValue(a))
    requires offset + |p| <= |data| && data[offset..offset + |p|] == p
    ensures DecodeArgs(data, ArgTag(a) + restTags, offset)
         == PrependAll(ExpectedOf(a), DecodeArgs(data, restTags, offset + |p|))
  {
    assert ArgTag(a) == "i";
    DecodeWordArg(data, offset, 'i', p, restTags);
    Int32.UnpackPack(PyIntValue(a));
    assert ExpectedOf(a) == [VInt(PyIntValue(a))];
  }

  /** A float: its four raw bytes read back under `f`. */
  lemma DecodeFloatOf(data: seq<byte>, offset: nat, a: Arg, p: seq<byte>, restTags: string)
    requires a.Float? && p == a.raw
    requires offset + |p| <= |data| && data[offset..offset + |p|] == p
    ensures DecodeArgs(data, ArgTag(a) + restTags, offset)
         == PrependAll(ExpectedOf(a), DecodeArgs(data, restTags, offset + |p|))
  {
    DecodeWordArg(data, offset, 'f', p, restTags);
  }

  /** Anything else: no tag, no bytes, nothing read. */
  lemma DecodeOtherOf(data: seq<byte>, offset: nat, a: Arg, restTags: string)
    requires a.Other?
    ensures DecodeArgs(data, ArgTag(a) + restTags, offset)
         == PrependAll(ExpectedOf(a), DecodeArgs(data, restTags, offset))
  {
    var rest := DecodeArgs(data, restTags, offset);
    assert ArgTag(a) + restTags == restTags;
    if rest.Returned? {
      assert [] + rest.value == rest.value;
    }
  }

  /** One encodable argument's payload, read back under its tag. */
  lemma DecodeEncodedArg(data: seq<byte>, offset: nat, a: Arg, p: seq<byte>, restTags: string)
    requires EncodableArg(a) && ArgPayload(a) == Ok(p)
    requires offset + |p| <= |data| && data[offset..offset + |p|] == p
    ensures DecodeArgs(data, ArgTag(a) + restTags, offset)
         == PrependAll(ExpectedOf(a), DecodeArgs(data, restTags, offset + |p|))
  {
    if a.Str? {
      DecodeStrOf(data, offset, a, p, restTags);
    } else if IsPyInt(a) {
      DecodePyIntOf(data, offset, a, p, restTags);
    } else if a.Float? {
      DecodeFloatOf(data, offset, a, p, restTags);
    } else {
      assert p == [];
      DecodeOtherOf(data, offset, a, restTags);
    }
  }

  /** A slice holding `p + q` holds `p` and then `q`. */
  lemma SplitSlice(data: seq<byte>, offset: nat, p: seq<byte>, q: seq<byte>)
    requires offset + |p + q| <= |data| && data[offset..offset + |p + q|] == p + q
    ensures data[offset..offset + |p|] == p
    ensures data[offset + |p|..offset + |p| + |q|] == q
  {
    assert data[offset..offset + |p|] == data[offset..offset + |p + q|][..|p|];
    assert data[offset + |p|..offset + |p| + |q|] == data[offset..offset + |p + q|][|p|..];
  }

  /** The payload of encodable arguments reads back as their expected values under their type tags. */
  lemma {:induction false} DecodeEncodedArgs(data: seq<byte>, offset: nat, args: seq<Arg>, pq: seq<byte>)
    requires EncodableArgs(args) && Payload(args) == Ok(pq)
    requires offset + |pq| <= |data| && data[offset..offset + |pq|] == pq
    ensures DecodeArgs(data, TypeTags(args), offset) == Returned(Expected(args))
    decreases |args|
  {
    if args != [] {
      var rest := args[1..];
      EncodablePayloadSplit(args, pq);
      var p := ArgPayload(args[0]).value;
      var q := Payload(rest).value;
      SplitSlice(data, offset, p, q);
      DecodeEncodedArgs(data, offset + |p|, rest, q);
      DecodeArgsStep(data, offset, args, p);
    }
  }

  /** An encodable list's payload is its first argument's followed by the rest's, and the rest is encodable. */
  lemma EncodablePayloadSplit(args: seq<Arg>, pq: seq<byte>)
    requires args != [] && EncodableArgs(args) && Payload(args) == Ok(pq)
    ensures EncodableArg(args[0]) && EncodableArgs(args[1..])
    ensures ArgPayload(args[0]).Ok? && Payload(args[1..]).Ok?
    ensures pq == ArgPayload(args[0]).value + Payload(args[1..]).value
  {
    var rest := args[1..];
    assert EncodableArg(args[0]);
    assert EncodableArgs(rest) by {
      forall i | 0 <= i < |rest| ensures EncodableArg(rest[i]) {
        assert rest[i] == args[i + 1];
      }
    }
    EncodablePayloadOk(rest);
  }

  /** The first argument read back in front of the others read back. */
  lemma DecodeArgsStep(data: seq<byte>, offset: nat, args: seq<Arg>, p: seq<byte>)
    requires args != [] && EncodableArg(args[0]) && ArgPayload(args[0]) == Ok(p)
    requires offset + |p| <= |data| && data[offset..offset + |p|] == p
    requires DecodeArgs(data, TypeTags(args[1..]), offset + |p|) == Returned(Expected(args[1..]))
    ensures DecodeArgs(data, TypeTags(args), offset) == Returned(Expected(args))
  {
    DecodeEncodedArg(data, offset, args[0], p, TypeTags(args[1..]));
  }

  /** A type tag string built from the arguments' tags holds no NUL. */
  lemma TagNulFree(args: seq<Arg>)
    ensures NulFree("," + TypeTags(args))
  {
    var tag := "," + TypeTags(args);
    TagsOnePerSupportedArg(args);
    forall i | 0 <= i < |tag| ensures tag[i] != '\0' {
      if i > 0 { assert tag[i] == TypeTags(args)[i - 1]; }
    }
  }

  /** The address OSC-string at the head of a datagram decodes back to the address. */
  lemma AddressRead(address: string, t: seq<byte>, p: seq<byte>)
    requires NulFree(address)
    ensures DecodeOscString(EncodeOscString(address) + t + p, 0)
         == Returned(StringRead(Some(address), |EncodeOscString(address)|))
  {
    var data := EncodeOscString(address) + t + p;
    assert data[0..|EncodeOscString(address)|] == EncodeOscString(address);
    DecodeEncodedString(data, 0, address);
  }

  /** The type tag OSC-string after the address decodes back to the tag string. */
  lemma TagRead(a: seq<byte>, tag: string, p: seq<byte>)
    requires NulFree(tag)
    ensures DecodeOscString(a + EncodeOscString(tag) + p, |a|)
         == Returned(StringRead(Some(tag), |a + EncodeOscString(tag)|))
  {
    var data := a + EncodeOscString(tag) + p;
    assert data[|a|..|a| + |EncodeOscString(tag)|] == EncodeOscString(tag);
    DecodeEncodedString(data, |a|, tag);
  }

  /** The payload after the address and the type tags decodes back under those tags. */
  lemma ArgsRead(a: seq<byte>, t: seq<byte>, args: seq<Arg>, p: seq<byte>)
    requires EncodableArgs(args) && Payload(args) == Ok(p)
    ensures DecodeArgs(a + t + p, TypeTags(args), |a + t|) == Returned(Expected(args))
  {
    var pre := a + t;
    assert (pre + p)[|pre|..|pre| + |p|] == p;
    DecodeEncodedArgs(pre + p, |pre|, args, p);
  }

  /** `decode_osc_message` succeeds once its three reads succeed. */
  lemma DecodeMessageOfParts(a: seq<byte>, t: seq<byte>, p: seq<byte>, address: string, tags: string, vs: seq<Value>)
    requires address != "" && DecodeOscString(a + t + p, 0) == Returned(StringRead(Some(address), |a|))
    requires DecodeOscString(a + t + p, |a|) == Returned(StringRead(Some("," + tags), |a + t|))
    requires DecodeArgs(a + t + p, tags, |a + t|) == Returned(vs)
    ensures DecodeMessage(a + t + p) == Some(Message(address, vs))
  {
    assert ("," + tags)[1..] == tags;
  }

  /**
   * The round trip: a non-empty NUL-free address with encodable arguments
   * encodes without error, and decoding gives back the address and the
   * arguments (bools as 0/1, skipped arguments absent).
   */
  lemma RoundTrip(address: string, args: seq<Arg>)
    requires address != "" && NulFree(address)
    requires EncodableArgs(args)
    ensures MessageBytes(address, args).Ok?
    ensures DecodeMessage(MessageBytes(address, args).value) == Some(Message(address, Expected(args)))
  {
    EncodablePayloadOk(args);
    var a := EncodeOscString(address);
    var tags := TypeTags(args);
    var t := EncodeOscString("," + tags);
    var p := Payload(args).value;
    assert MessageBytes(address, args) == Ok(a + t + p);
    AddressRead(address, t, p);
    TagNulFree(args);
    TagRead(a, "," + tags, p);
    ArgsRead(a, t, args, p);
    DecodeMessageOfParts(a, t, p, address, tags, Expected(args));
  }
}

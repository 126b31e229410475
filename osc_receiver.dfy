/**
 * The OSC decoder of the Python receiver script: `decode_osc_string` and
 * `decode_osc_message` (test_osc_receiver.py).
 */
module OscReceiver {
  import opened Common
  import Utf8
  import Int32

  /** How a Python call ends: with a value, or by raising an exception. */
  datatype Outcome<+T> = Returned(value: T) | Raised

  /**
   * One element of the decoded `args` list: a str, Python's None (what an
   * unterminated `s` argument appends), an int, a float (kept as the four
   * bytes `struct.unpack('>f', ...)` reads) or a bool.
   */
  datatype Value = VStr(s: string) | VNone | VInt(n: int) | VFloat(raw: Word) | VBool(b: bool)

  /** The dict `{'address': ..., 'args': [...]}` that `decode_osc_message` returns. */
  datatype Message = Message(address: string, args: seq<Value>)

  /** `data.find(b'\x00', start)`, with Python's -1 as None. */
  function FindZero(data: seq<byte>, start: nat): (r: Option<nat>)
    ensures r.Some? ==> start <= r.value < |data|
    decreases |data| - start
  {
    if start >= |data| then None
    else if data[start] == 0 then Some(start)
    else FindZero(data, start + 1)
  }

  /** `find` gives the first zero byte at or after `start`, and -1 exactly when there is none. */
  lemma {:induction false} FindZeroSpec(data: seq<byte>, start: nat)
    ensures var r := FindZero(data, start);
      r.Some? ==> data[r.value] == 0 && forall k :: start <= k < r.value ==> data[k] != 0
    ensures FindZero(data, start).None? <==> forall k :: start <= k < |data| ==> data[k] != 0
    decreases |data| - start
  {
    if start < |data| && data[start] != 0 {
      FindZeroSpec(data, start + 1);
    }
  }

  /** What `decode_osc_string` returns: the string (or None) and the next offset. */
  datatype StringRead = StringRead(value: Option<string>, next: nat)

  /**
   * `decode_osc_string(data, offset)`. The padding after the terminator is
   * skipped without being looked at, so the next offset may lie past the end
   * of `data`. Bytes that are not UTF-8 make `.decode('utf-8')` raise.
   */
  function DecodeOscString(data: seq<byte>, offset: nat): (r: Outcome<StringRead>)
  {
    match FindZero(data, offset)
    case None => Returned(StringRead(None, |data|))
    case Some(end) =>
      match Utf8.Decode(data[offset..end])
      case None => Raised
      case Some(s) => Returned(StringRead(Some(s), end + 1 + Padding(end - offset)))
  }

  /** `decode_osc_string` gives (None, len(data)) exactly when no NUL follows `offset`. */
  lemma DecodeOscStringUnterminated(data: seq<byte>, offset: nat)
    ensures var r := DecodeOscString(data, offset);
      (r.Returned? && r.value.value.None?) <==> forall k :: offset <= k < |data| ==> data[k] != 0
    ensures var r := DecodeOscString(data, offset);
      r.Returned? && r.value.value.None? ==> r.value.next == |data|
  {
    FindZeroSpec(data, offset);
  }

  /** A string that `decode_osc_string` returns is the text of the bytes before the first NUL. */
  lemma DecodeOscStringReturned(data: seq<byte>, offset: nat, s: string, next: nat)
    requires DecodeOscString(data, offset) == Returned(StringRead(Some(s), next))
    ensures FindZero(data, offset).Some?
    ensures var end := FindZero(data, offset).value;
      && offset <= end
      && Utf8.Encode(s) == data[offset..end]
      && next == end + 1 + Padding(end - offset)
  {
    var end := FindZero(data, offset).value;
    var bs := data[offset..end];
    assert Utf8.Decode(bs) == Some(s);
    DecodedBytes(bs, s);
  }

  /** Bytes that decode to `s` are the encoding of `s`. */
  lemma DecodedBytes(bs: seq<byte>, s: string)
    requires Utf8.Decode(bs) == Some(s)
    ensures Utf8.Encode(s) == bs
  {
    Utf8.EncodeDecode(bs);
  }

  /**
   * A decoded string's UTF-8 bytes stand at `offset`, a NUL follows them, and
   * the cursor moves past the padded OSC-string (the padding itself unread).
   */
  lemma DecodeOscStringFound(data: seq<byte>, offset: nat, s: string, next: nat)
    requires DecodeOscString(data, offset) == Returned(StringRead(Some(s), next))
    ensures var u := Utf8.Encode(s);
      && offset + |u| < |data|
      && data[offset..offset + |u|] == u
      && NoZero(u)
      && data[offset + |u|] == 0
      && next == offset + PaddedLength(|u|)
  {
    DecodeOscStringReturned(data, offset, s, next);
    var end, u := FindZero(data, offset).value, Utf8.Encode(s);
    BytesBeforeFirstZero(data, offset, end, u, next);
  }

  /** `DecodeOscStringFound` for the bytes `u` before the first NUL at `end`. */
  lemma BytesBeforeFirstZero(data: seq<byte>, offset: nat, end: nat, u: seq<byte>, next: nat)
    requires FindZero(data, offset) == Some(end)
    requires offset <= end && u == data[offset..end] && next == end + 1 + Padding(end - offset)
    ensures && offset + |u| < |data|
      && data[offset..offset + |u|] == u
      && NoZero(u)
      && data[offset + |u|] == 0
      && next == offset + PaddedLength(|u|)
  {
    NoZeroBeforeFirst(data, offset, end);
    assert offset + |u| == end;
    NextOffset(offset, end, |u|);
  }

  /** The bytes before the first NUL hold no NUL. */
  lemma NoZeroBeforeFirst(data: seq<byte>, offset: nat, end: nat)
    requires FindZero(data, offset) == Some(end)
    ensures offset <= end < |data| && data[end] == 0 && NoZero(data[offset..end])
  {
    FindZeroSpec(data, offset);
    forall k | 0 <= k < end - offset ensures data[offset..end][k] != 0 {
      assert data[offset..end][k] == data[offset + k];
    }
  }

  /** The first NUL at or after `start` is at `end` when `end` holds one and nothing before it does. */
  lemma FindZeroAt(data: seq<byte>, start: nat, end: nat)
    requires start <= end < |data| && data[end] == 0
    requires forall k :: start <= k < end ==> data[k] != 0
    ensures FindZero(data, start) == Some(end)
  {
    FindZeroSpec(data, start);
    var f := FindZero(data, start);
    assert f.Some?;
    assert f.value >= end;
  }

  /** With the first NUL at `end` and UTF-8 bytes before it, `decode_osc_string` returns their text. */
  lemma DecodeOscStringEndingAt(data: seq<byte>, offset: nat, end: nat, s: string)
    requires FindZero(data, offset) == Some(end)
    requires offset <= end && Utf8.Decode(data[offset..end]) == Some(s)
    ensures DecodeOscString(data, offset) == Returned(StringRead(Some(s), end + 1 + Padding(end - offset)))
  {
  }

  /** The cursor after a string of `n` bytes that ends at `end` is the padded length past `offset`. */
  lemma NextOffset(offset: nat, end: nat, n: nat)
    requires end == offset + n
    ensures end + 1 + Padding(end - offset) == offset + PaddedLength(n)
  {
    assert end - offset == n;
    PaddingIsAlignment(n);
  }

  /** NUL-free bytes `u` at `offset` with a NUL after them put the first NUL at `end`. */
  lemma FirstZeroAfter(data: seq<byte>, offset: nat, end: nat, u: seq<byte>)
    requires NoZero(u)
    requires end == offset + |u| && end < |data| && data[offset..end] == u && data[end] == 0
    ensures FindZero(data, offset) == Some(end)
  {
    assert forall k :: offset <= k < end ==> data[k] != 0 by {
      forall k | offset <= k < end ensures data[k] != 0 {
        assert data[k] == u[k - offset];
      }
    }
    FindZeroAt(data, offset, end);
  }

  /**
   * The converse of `DecodeOscStringFound`: NUL-free UTF-8 bytes `u` of `s`
   * at `offset`, with a NUL right after them at `end`, decode to `s`, and the
   * cursor lands past the padded OSC-string.
   */
  lemma DecodeOscStringAt(data: seq<byte>, offset: nat, end: nat, u: seq<byte>, s: string)
    requires Utf8.Decode(u) == Some(s) && NoZero(u)
    requires end == offset + |u| && end < |data| && data[offset..end] == u && data[end] == 0
    ensures DecodeOscString(data, offset) == Returned(StringRead(Some(s), offset + PaddedLength(|u|)))
  {
    FirstZeroAfter(data, offset, end, u);
    DecodeOscStringEndingAt(data, offset, end, s);
    NextOffset(offset, end, |u|);
  }

  /** `decode_osc_string` raises exactly when the bytes before the first NUL are not UTF-8. */
  lemma DecodeOscStringRaises(data: seq<byte>, offset: nat)
    ensures DecodeOscString(data, offset).Raised? <==> exists end ::
      && offset <= end < |data|
      && data[end] == 0
      && (forall k :: offset <= k < end ==> data[k] != 0)
      && Utf8.Decode(data[offset..end]).None?
  {
    FindZeroSpec(data, offset);
    if DecodeOscString(data, offset).Raised? {
      var end := FindZero(data, offset).value;
      assert offset <= end < |data| && data[end] == 0 && Utf8.Decode(data[offset..end]).None?;
    }
    if exists end :: && offset <= end < |data| && data[end] == 0
                     && (forall k :: offset <= k < end ==> data[k] != 0)
                     && Utf8.Decode(data[offset..end]).None? {
      var end :| && offset <= end < |data| && data[end] == 0
                 && (forall k :: offset <= k < end ==> data[k] != 0)
                 && Utf8.Decode(data[offset..end]).None?;
      FindZeroAt(data, offset, end);
    }
  }

  /** `v` in front of the values of `o`; an exception passes through. */
  function Prepend(v: Value, o: Outcome<seq<Value>>): Outcome<seq<Value>>
  {
    match o
    case Raised => Raised
    case Returned(vs) => Returned([v] + vs)
  }

  /**
   * The argument loop of `decode_osc_message`, reading `tags` from `offset` on:
   * `s` a string (or None when unterminated), `i`/`f` four bytes (fewer left
   * makes `struct.unpack` raise), `T`/`F` no bytes, and any other character
   * ends the loop, keeping what was decoded so far.
   */
  function DecodeArgs(data: seq<byte>, tags: string, offset: nat): Outcome<seq<Value>>
    decreases |tags|
  {
    if tags == [] then Returned([])
    else
      var c := tags[0];
      if c == 's' then
        match DecodeOscString(data, offset)
        case Raised => Raised
        case Returned(sr) =>
          Prepend(if sr.value.Some? then VStr(sr.value.value) else VNone, DecodeArgs(data, tags[1..], sr.next))
      else if c == 'i' then
        if offset + 4 <= |data| then Prepend(VInt(Int32.Unpack(data[offset..offset + 4])), DecodeArgs(data, tags[1..], offset + 4))
        else Raised
      else if c == 'f' then
        if offset + 4 <= |data| then Prepend(VFloat(data[offset..offset + 4]), DecodeArgs(data, tags[1..], offset + 4))
        else Raised
      else if c == 'T' then Prepend(VBool(true), DecodeArgs(data, tags[1..], offset))
      else if c == 'F' then Prepend(VBool(false), DecodeArgs(data, tags[1..], offset))
      else Returned([])
  }

  /** True for a decoded string that Python treats as false: None or "". */
  predicate Falsy(v: Option<string>) { v.None? || v.value == "" }

  /**
   * What `decode_osc_message(data)` returns; every exception inside it is
   * caught and turned into None.
   */
  function DecodeMessage(data: seq<byte>): Option<Message>
  {
    match DecodeOscString(data, 0)
    case Raised => None
    case Returned(a) =>
      if Falsy(a.value) then None
      else match DecodeOscString(data, a.next)
        case Raised => None
        case Returned(t) =>
          if Falsy(t.value) || t.value.value[0] != ',' then None
          else match DecodeArgs(data, t.value.value[1..], t.next)
            case Raised => None
            case Returned(args) => Some(Message(a.value.value, args))
  }

  /** An address that is empty (a NUL at offset 0) or has no NUL at all gives None. */
  lemma AddressRequired(data: seq<byte>)
    requires (|data| > 0 && data[0] == 0) || forall k :: 0 <= k < |data| ==> data[k] != 0
    ensures DecodeMessage(data) == None
  {
    DecodeOscStringUnterminated(data, 0);
    if |data| > 0 && data[0] == 0 {
      assert FindZero(data, 0) == Some(0);
      assert Utf8.Decode(data[0..0]) == Some("");
    }
  }

  /**
   * Where the byte after the address is not ',' (or there is none), or no
   * NUL ends the type tag, the type tag is missing, empty, unterminated or
   * opens with another character: None.
   */
  lemma TypeTagMustOpenWithComma(data: seq<byte>, next: nat)
    requires DecodeOscString(data, 0).Returned? && DecodeOscString(data, 0).value.next == next
    requires next >= |data| || data[next] != 0x2C || forall k :: next <= k < |data| ==> data[k] != 0
    ensures DecodeMessage(data) == None
  {
    if forall k :: next <= k < |data| ==> data[k] != 0 {
      DecodeOscStringUnterminated(data, next);
    } else if data[next] == 0 {
      assert FindZero(data, next) == Some(next);
      assert Utf8.Decode(data[next..next]) == Some("");
    } else {
      var t := DecodeOscString(data, next);
      if t.Returned? && t.value.value.Some? && t.value.value.value != "" {
        var tag := t.value.value.value;
        DecodeOscStringFound(data, next, tag, t.value.next);
        var u := Utf8.Encode(tag);
        assert u[0] == Utf8.EncodeChar(tag[0])[0];
        assert data[next] == data[next..next + |u|][0];
      }
    }
  }

  /** Everything from an unknown type character on is ignored: the arguments before it are kept. */
  lemma {:induction false} UnknownTagStops(data: seq<byte>, known: string, c: char, rest: string, offset: nat)
    requires c !in "sifTF"
    ensures DecodeArgs(data, known + [c] + rest, offset) == DecodeArgs(data, known, offset)
    decreases |known|
  {
    var t := known + [c] + rest;
    if known == [] {
      assert t[0] == c;
    } else {
      assert t[0] == known[0] && t[1..] == known[1..] + [c] + rest;
      var k := known[0];
      if k == 's' {
        match DecodeOscString(data, offset)
        case Raised =>
        case Returned(sr) => UnknownTagStops(data, known[1..], c, rest, sr.next);
      } else if k == 'i' || k == 'f' {
        UnknownTagStops(data, known[1..], c, rest, offset + 4);
      } else if k == 'T' || k == 'F' {
        UnknownTagStops(data, known[1..], c, rest, offset);
      }
    }
  }

  /** An unterminated `s` argument reads as None and moves the cursor to the end of the data. */
  lemma UnterminatedStringArg(data: seq<byte>, rest: string, offset: nat)
    requires forall k :: offset <= k < |data| ==> data[k] != 0
    ensures DecodeArgs(data, "s" + rest, offset) == Prepend(VNone, DecodeArgs(data, rest, |data|))
  {
    DecodeOscStringUnterminated(data, offset);
    assert ("s" + rest)[0] == 's' && ("s" + rest)[1..] == rest;
  }

  /** An `i` or `f` with fewer than four bytes left raises; `T` and `F` read no bytes. */
  lemma ArgumentWidths(data: seq<byte>, c: char, rest: string, offset: nat)
    ensures (c == 'i' || c == 'f') && offset + 4 > |data| ==> DecodeArgs(data, [c] + rest, offset) == Raised
    ensures c == 'T' ==> DecodeArgs(data, [c] + rest, offset) == Prepend(VBool(true), DecodeArgs(data, rest, offset))
    ensures c == 'F' ==> DecodeArgs(data, [c] + rest, offset) == Prepend(VBool(false), DecodeArgs(data, rest, offset))
  {
    assert ([c] + rest)[0] == c && ([c] + rest)[1..] == rest;
  }

  /** `args` in front of the values of `o`. */
  function PrependAll(args: seq<Value>, o: Outcome<seq<Value>>): Outcome<seq<Value>>
  {
    match o
    case Raised => Raised
    case Returned(vs) => Returned(args + vs)
  }

  /** `decode_osc_message`: a cursor over the data and a list that grows one argument at a time. */
  method DecodeOscMessage(data: seq<byte>) returns (r: Option<Message>)
    ensures r == DecodeMessage(data)
  {
    var addr := DecodeOscString(data, 0);
    if addr.Raised? || Falsy(addr.value.value) {
      return None;
    }
    var tag := DecodeOscString(data, addr.value.next);
    if tag.Raised? || Falsy(tag.value.value) || tag.value.value.value[0] != ',' {
      return None;
    }
    var typeChars := tag.value.value.value[1..];
    var offset: nat := tag.value.next;
    var args: seq<Value> := [];
    var i := 0;
    assert typeChars[0..] == typeChars;
    assert PrependAll([], DecodeArgs(data, typeChars, offset)) == DecodeArgs(data, typeChars, offset) by {
      var o := DecodeArgs(data, typeChars, offset);
      if o.Returned? { assert [] + o.value == o.value; }
    }
    while i < |typeChars|
      invariant 0 <= i <= |typeChars|
      invariant DecodeArgs(data, typeChars, tag.value.next) == PrependAll(args, DecodeArgs(data, typeChars[i..], offset))
    {
      var c := typeChars[i];
      ghost var rest := DecodeArgs(data, typeChars[i + 1..], offset);
      assert typeChars[i..][1..] == typeChars[i + 1..];
      if c == 's' {
        var sr := DecodeOscString(data, offset);
        if sr.Raised? {
          return None;
        }
        var v := if sr.value.value.Some? then VStr(sr.value.value.value) else VNone;
        PrependAllStep(args, v, DecodeArgs(data, typeChars[i + 1..], sr.value.next));
        args := args + [v];
        offset := sr.value.next;
      } else if c == 'i' {
        if offset + 4 > |data| {
          return None;
        }
        var v := VInt(Int32.Unpack(data[offset..offset + 4]));
        PrependAllStep(args, v, DecodeArgs(data, typeChars[i + 1..], offset + 4));
        args := args + [v];
        offset := offset + 4;
      } else if c == 'f' {
        if offset + 4 > |data| {
          return None;
        }
        var v := VFloat(data[offset..offset + 4]);
        PrependAllStep(args, v, DecodeArgs(data, typeChars[i + 1..], offset + 4));
        args := args + [v];
        offset := offset + 4;
      } else if c == 'T' {
        PrependAllStep(args, VBool(true), rest);
        args := args + [VBool(true)];
      } else if c == 'F' {
        PrependAllStep(args, VBool(false), rest);
        args := args + [VBool(false)];
      } else {
        // Unknown type character: stop, keeping the arguments read so far.
        assert args + [] == args;
        break;
      }
      i := i + 1;
    }
    if i == |typeChars| {
      assert args + [] == args;
    }
    return Some(Message(addr.value.value.value, args));
  }

  lemma PrependAllStep(args: seq<Value>, v: Value, o: Outcome<seq<Value>>)
    ensures PrependAll(args, Prepend(v, o)) == PrependAll(args + [v], o)
  {
    if o.Returned? {
      assert args + ([v] + o.value) == (args + [v]) + o.value;
    }
  }
}

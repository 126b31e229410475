/**
 * The OSC side of the Tauri backend (src-tauri/src/lib.rs): the messages
 * the two send commands build, and the VRChat listener that is started at
 * most once and turns received packets into mute events.
 *
 * Packets arrive already decoded: the decoder and encoder (the `rosc`
 * crate) and the sockets are foreign. The listener thread runs over a
 * finite trace of what successive receives produced.
 */
module Listener {
  import opened Common
  import OscSender

  /** The argument kinds of a decoded OSC message (`rosc::OscType`), the rest folded into one. */
  datatype OscType = Int(i: int) | Float(raw: Word) | Str(s: string) | Bool(b: bool) | OtherType

  datatype OscMessage = OscMessage(addr: string, args: seq<OscType>)

  /** `rosc::OscPacket`: a message or a bundle of packets. */
  datatype OscPacket = Message(msg: OscMessage) | Bundle(content: seq<OscPacket>)

  const TypingAddress: string := "/chatbox/typing"
  const ChatboxAddress: string := "/chatbox/input"
  const MuteAddress: string := "/avatar/parameters/MuteSelf"

  /** The message `send_typing` builds: the typing indicator, always switched on. */
  function TypingMessage(): (m: OscMessage)
    ensures m.addr == TypingAddress && m.args == [Bool(true)]
  {
    OscMessage(TypingAddress, [Bool(true)])
  }

  /** The message `send_message` builds: the text, unchanged, and `true` to send it at once. */
  function ChatboxMessage(text: string): (m: OscMessage)
    ensures m.addr == ChatboxAddress && |m.args| == 2
    ensures m.args[0] == Str(text) && m.args[1] == Bool(true)
  {
    OscMessage(ChatboxAddress, [Str(text), Bool(true)])
  }

  /** Distinct texts give distinct chatbox messages: nothing is cut or altered. */
  lemma ChatboxMessageInjective(a: string, b: string)
    requires ChatboxMessage(a) == ChatboxMessage(b)
    ensures a == b
  {
    assert ChatboxMessage(a).args[0] == Str(a);
  }

  /** Neither command builds a message that switches the typing indicator off. */
  lemma NoTypingOff(text: string)
    ensures TypingMessage() != OscMessage(TypingAddress, [Bool(false)])
    ensures ChatboxMessage(text).addr != TypingAddress
  {
    assert |ChatboxMessage(text).addr| != |TypingAddress|;
  }

  /** The mute value a message carries: a Bool first argument of a MuteSelf message. */
  function MuteOf(m: OscMessage): Option<bool>
  {
    if m.addr == MuteAddress && |m.args| > 0 && m.args[0].Bool? then Some(m.args[0].b) else None
  }

  /** The mute values of a packet: a message's own, a bundle's top-level messages' in order; nested bundles give none. */
  function PacketMutes(p: OscPacket): seq<bool>
  {
    match p
    case Message(m) => MuteValues([m])
    case Bundle(content) => MuteValues(TopLevelMessages(content))
  }

  /** The messages directly inside a bundle, in order. */
  function TopLevelMessages(content: seq<OscPacket>): (r: seq<OscMessage>)
    ensures |r| <= |content|
  {
    if content == [] then []
    else (if content[0].Message? then [content[0].msg] else []) + TopLevelMessages(content[1..])
  }

  /** The mute values of the messages that carry one, in order. */
  function MuteValues(ms: seq<OscMessage>): seq<bool>
  {
    if ms == [] then []
    else (if MuteOf(ms[0]).Some? then [MuteOf(ms[0]).value] else []) + MuteValues(ms[1..])
  }

  /** A message yields a mute event exactly when it is a MuteSelf with a Bool first argument, and then that Bool. */
  lemma MessageMute(m: OscMessage)
    ensures PacketMutes(Message(m)) == (if m.addr == MuteAddress && |m.args| > 0 && m.args[0].Bool? then [m.args[0].b] else [])
  {
    assert [m][0] == m && [m][1..] == [];
    assert MuteValues([m]) == (if MuteOf(m).Some? then [MuteOf(m).value] else []) + MuteValues([]);
  }

  /** The value does not depend on what follows the first argument. */
  lemma MuteIgnoresLaterArgs(b: bool, rest: seq<OscType>)
    ensures PacketMutes(Message(OscMessage(MuteAddress, [Bool(b)] + rest))) == [b]
  {
    MessageMute(OscMessage(MuteAddress, [Bool(b)] + rest));
  }

  /**
   * The Python test sends MuteSelf with a Python bool, which its encoder
   * tags `i`: an int 0 or 1 reaches the listener, and no event follows.
   */
  lemma PythonMuteTestIgnored(b: bool)
    ensures OscSender.TypeTags([OscSender.Bool(b)]) == "i"
    ensures PacketMutes(Message(OscMessage(MuteAddress, [Int(if b then 1 else 0)]))) == []
  {
    OscSender.BoolEncodedAsInt(b);
    assert [OscSender.Bool(b)][1..] == [];
    MessageMute(OscMessage(MuteAddress, [Int(if b then 1 else 0)]));
  }

  /** A bundle's events are those of its top-level messages, concatenated. */
  lemma {:induction false} BundleMutesAppend(a: seq<OscPacket>, b: seq<OscPacket>)
    ensures PacketMutes(Bundle(a + b)) == PacketMutes(Bundle(a)) + PacketMutes(Bundle(b))
  {
    TopLevelAppend(a, b);
    MuteValuesAppend(TopLevelMessages(a), TopLevelMessages(b));
  }

  lemma {:induction false} TopLevelAppend(a: seq<OscPacket>, b: seq<OscPacket>)
    ensures TopLevelMessages(a + b) == TopLevelMessages(a) + TopLevelMessages(b)
  {
    if a == [] {
      assert a + b == b;
    } else {
      assert (a + b)[0] == a[0] && (a + b)[1..] == a[1..] + b;
      TopLevelAppend(a[1..], b);
    }
  }

  lemma {:induction false} MuteValuesAppend(a: seq<OscMessage>, b: seq<OscMessage>)
    ensures MuteValues(a + b) == MuteValues(a) + MuteValues(b)
  {
    if a == [] {
      assert a + b == b;
    } else {
      assert (a + b)[0] == a[0] && (a + b)[1..] == a[1..] + b;
      MuteValuesAppend(a[1..], b);
    }
  }

  /** A bundle nested in a bundle contributes nothing. */
  lemma NestedBundleIgnored(inner: seq<OscPacket>)
    ensures PacketMutes(Bundle([Bundle(inner)])) == []
  {
  }

  /** What one receive produced: a decoded packet, bytes that did not decode, or a receive error and whether rebinding then worked. */
  datatype Receive = Packet(p: OscPacket) | Undecodable | RecvError(rebound: bool)

  /** What the listener emits to the front end. */
  datatype Event = Status(status: string) | Mute(muted: bool) | BindError(reason: string)

  function MuteEvents(mutes: seq<bool>): (r: seq<Event>)
    ensures |r| == |mutes| && forall k :: 0 <= k < |r| ==> r[k] == Mute(mutes[k])
  {
    if mutes == [] then [] else [Mute(mutes[0])] + MuteEvents(mutes[1..])
  }

  /**
   * The receive loop over the trace: each packet's mute events, nothing for
   * bytes that do not decode, and on a receive error "disconnected" followed
   * by "connected" if rebinding works, or the end of the loop if not.
   */
  function LoopEvents(trace: seq<Receive>): seq<Event>
  {
    if trace == [] then []
    else match trace[0]
      case Packet(p) => MuteEvents(PacketMutes(p)) + LoopEvents(trace[1..])
      case Undecodable => LoopEvents(trace[1..])
      case RecvError(rebound) =>
        if rebound then [Status("disconnected"), Status("connected")] + LoopEvents(trace[1..])
        else [Status("disconnected")]
  }

  /** The listener thread: "connected" and the loop when the first bind works, "error" and the reason when not. */
  function ListenerEvents(bound: bool, bindError: string, trace: seq<Receive>): seq<Event>
  {
    if bound then [Status("connected")] + LoopEvents(trace)
    else [Status("error"), BindError(bindError)]
  }

  /** Undecodable bytes neither emit anything nor stop the loop. */
  lemma {:induction false} UndecodableIgnored(before: seq<Receive>, after: seq<Receive>)
    ensures LoopEvents(before + [Undecodable] + after) == LoopEvents(before + after)
  {
    if before == [] {
      assert before + [Undecodable] + after == [Undecodable] + after;
      assert ([Undecodable] + after)[1..] == after;
      assert before + after == after;
    } else {
      var t := before + [Undecodable] + after;
      var u := before + after;
      assert t[0] == before[0] && t[1..] == before[1..] + [Undecodable] + after;
      assert u[0] == before[0] && u[1..] == before[1..] + after;
      UndecodableIgnored(before[1..], after);
    }
  }

  /** Nothing received after a failed rebind is looked at. */
  lemma {:induction false} FailedRebindEndsLoop(before: seq<Receive>, after: seq<Receive>)
    ensures LoopEvents(before + [RecvError(false)] + after) == LoopEvents(before + [RecvError(false)])
  {
    if before == [] {
      assert before + [RecvError(false)] + after == [RecvError(false)] + after;
      assert before + [RecvError(false)] == [RecvError(false)];
    } else {
      var t := before + [RecvError(false)] + after;
      var u := before + [RecvError(false)];
      assert t[0] == before[0] && t[1..] == before[1..] + [RecvError(false)] + after;
      assert u[0] == before[0] && u[1..] == before[1..] + [RecvError(false)];
      FailedRebindEndsLoop(before[1..], after);
    }
  }

  /** The app side of the listener: the once-flag and the events emitted so far. */
  class App {
    var listenerStarted: bool
    var emitted: seq<Event>

    constructor ()
      ensures !listenerStarted && emitted == []
    {
      listenerStarted := false;
      emitted := [];
    }

    /**
     * `start_vrc_listener`: swap the flag; when it was already set return
     * at once, otherwise run the listener thread (here to the end of the
     * trace) and emit what it emits.
     */
    method StartVrcListener(bound: bool, bindError: string, trace: seq<Receive>)
      modifies this
      ensures listenerStarted
      ensures old(listenerStarted) ==> emitted == old(emitted)
      ensures !old(listenerStarted) ==> emitted == old(emitted) + ListenerEvents(bound, bindError, trace)
    {
      var wasStarted := listenerStarted;
      listenerStarted := true;
      if wasStarted {
        return;
      }
      var events := RunListener(bound, bindError, trace);
      emitted := emitted + events;
    }
  }

  /** The listener thread: bind, then receive until the trace ends or a rebind fails. */
  method RunListener(bound: bool, bindError: string, trace: seq<Receive>) returns (events: seq<Event>)
    ensures events == ListenerEvents(bound, bindError, trace)
  {
    if !bound {
      return [Status("error"), BindError(bindError)];
    }
    events := [Status("connected")];
    var i := 0;
    while i < |trace|
      invariant 0 <= i <= |trace|
      invariant events + LoopEvents(trace[i..]) == [Status("connected")] + LoopEvents(trace)
    {
      assert trace[i..][0] == trace[i] && trace[i..][1..] == trace[i + 1..];
      match trace[i] {
        case Packet(p) =>
          events := events + MuteEvents(PacketMutes(p));
        case Undecodable =>
        case RecvError(rebound) =>
          events := events + [Status("disconnected")];
          if !rebound {
            return;
          }
          events := events + [Status("connected")];
      }
      i := i + 1;
    }
  }
}

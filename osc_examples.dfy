/**
 * The two hand-written datagrams of the integration workflow
 * (test_integration_workflow.py), read by the Python receiver.
 */
module OscExamples {
  import opened Common
  import Utf8
  import opened OscReceiver

  /**
   * When the address string is followed by a NUL where the type-tag string
   * should start, the type tag reads as "" and the whole datagram as None.
   */
  lemma EmptyTypeTagRejected(data: seq<byte>, end: nat)
    requires FindZero(data, 0) == Some(end)
    requires end + 1 + Padding(end) < |data| && data[end + 1 + Padding(end)] == 0
    ensures DecodeMessage(data) == None
  {
    var next := end + 1 + Padding(end);
    assert FindZero(data, next) == Some(next);
    assert Utf8.Decode(data[next..next]) == Some("");
  }

  /**
   * The chatbox datagram pads "/chatbox/input" with three NULs instead of
   * one, so the receiver finds an empty type tag and rejects it.
   */
  lemma ChatboxDatagramRejected()
    ensures DecodeMessage([47, 99, 104, 97, 116, 98, 111, 120, 47, 105, 110, 112, 117, 116, 0, 0, 0,
                           44, 115, 0, 0,
                           72, 101, 108, 108, 111, 32, 87, 111, 114, 108, 100, 0, 0, 0]) == None
  {
    var data: seq<byte> := [47, 99, 104, 97, 116, 98, 111, 120, 47, 105, 110, 112, 117, 116, 0, 0, 0,
                            44, 115, 0, 0,
                            72, 101, 108, 108, 111, 32, 87, 111, 114, 108, 100, 0, 0, 0];
    FindZeroAt(data, 0, 14);
    EmptyTypeTagRejected(data, 14);
  }

  /**
   * The typing datagram pads "/chatbox/typing" with three NULs where its
   * 15 bytes need one, and is rejected the same way.
   */
  lemma TypingDatagramRejected()
    ensures DecodeMessage([47, 99, 104, 97, 116, 98, 111, 120, 47, 116, 121, 112, 105, 110, 103, 0, 0, 0,
                           44, 105, 0, 0, 0, 0, 0, 1]) == None
  {
    var data: seq<byte> := [47, 99, 104, 97, 116, 98, 111, 120, 47, 116, 121, 112, 105, 110, 103, 0, 0, 0,
                            44, 105, 0, 0, 0, 0, 0, 1];
    FindZeroAt(data, 0, 15);
    EmptyTypeTagRejected(data, 15);
  }
}

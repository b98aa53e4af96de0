/** From cmos_publish to the subscriber's callback, across any fragmentation of the stream. */
module CmosEndToEnd {
  import opened Options
  import opened CmosText
  import LR = LineReceiver

  predicate Sendable(topic: string, f: Fields) {
    CleanTopic(topic) && Labelled(f) && Clean(f) && |Line(topic, f)| < LR.LINE_BUF
  }

  /** The bytes a subscriber's socket carries. */
  function Wire(topic: string, messages: seq<Fields>): string {
    if |messages| == 0 then "" else Line(topic, messages[0]) + Wire(topic, messages[1..])
  }

  function Lines(topic: string, messages: seq<Fields>): (lines: seq<string>)
    ensures |lines| == |messages|
  {
    seq(|messages|, i requires 0 <= i < |messages| => Line(topic, messages[i]))
  }

  function Calls(slots: seq<Slot>, s: int, lines: seq<string>): seq<Callback> {
    if |lines| == 0 then []
    else
      match Handled(slots, s, lines[0])
      case None => Calls(slots, s, lines[1..])
      case Some(call) => [call] + Calls(slots, s, lines[1..])
  }

  /** The callbacks the published messages call for, in order. */
  function ExpectedCalls(slots: seq<Slot>, s: int, topic: string, messages: seq<Fields>): seq<Callback> {
    if |messages| == 0 then []
    else
      match Expected(slots, s, topic, messages[0])
      case None => ExpectedCalls(slots, s, topic, messages[1..])
      case Some(call) => [call] + ExpectedCalls(slots, s, topic, messages[1..])
  }

  lemma LineIsPlain(topic: string, f: Fields)
    requires Sendable(topic, f)
    ensures var l := Line(topic, f); |l| > 0 && l[|l| - 1] == '\n' && LR.Plain(l[..|l| - 1]) && LR.Delivered(l) == l
  {
    DataFree(f);
    var l, data := Line(topic, f), Data(f);
    assert l == "MSG " + topic + " " + data + "\n";
    hide Data, Line, Clean, Labelled;
    NoNewline(topic, data);
    assert l[..|l| - 1] == "MSG " + topic + " " + data;
    LR.DeliveredWhole(l);
  }

  lemma NoNewline(topic: string, data: string)
    requires CleanTopic(topic) && Free(data, "\r\n\0")
    ensures LR.Plain("MSG " + topic + " " + data)
  {
    var head := "MSG ";
    var s := head + topic + " " + data;
    forall i | 0 <= i < |s| ensures s[i] != '\n' {
      if 4 <= i < 4 + |topic| {
        assert s[i] == topic[i - 4];
        assert '\n' in " \r\n\0" by { assert " \r\n\0"[2] == '\n'; }
      } else if i > 4 + |topic| {
        assert s[i] == data[i - 5 - |topic|];
        assert '\n' in "\r\n\0" by { assert "\r\n\0"[1] == '\n'; }
      }
    }
  }

  lemma {:induction false} WireSplits(topic: string, messages: seq<Fields>)
    requires forall i :: 0 <= i < |messages| ==> Sendable(topic, messages[i])
    ensures LR.IsSplit(Wire(topic, messages), Lines(topic, messages), "")
    decreases |messages|
  {
    hide Line, Sendable;
    if |messages| > 0 {
      var l := Line(topic, messages[0]);
      LineIsPlain(topic, messages[0]);
      WireSplits(topic, messages[1..]);
      assert Wire(topic, messages)[|l|..] == Wire(topic, messages[1..]);
      assert Lines(topic, messages)[1..] == Lines(topic, messages[1..]);
    }
  }

  lemma {:induction false} CallsExpected(slots: seq<Slot>, s: int, topic: string, messages: seq<Fields>)
    requires forall i :: 0 <= i < |messages| ==> Sendable(topic, messages[i])
    ensures Calls(slots, s, Lines(topic, messages)) == ExpectedCalls(slots, s, topic, messages)
    decreases |messages|
  {
    hide Line, Handled, Expected;
    if |messages| > 0 {
      PublishSubscribe(slots, s, topic, messages[0]);
      CallsExpected(slots, s, topic, messages[1..]);
      assert Lines(topic, messages)[1..] == Lines(topic, messages[1..]);
    }
  }

  /** However recv cuts the stream of published lines, the buffer ends empty and the callbacks are exactly
      those the messages call for, in the order they were published. */
  lemma EveryMessageArrives(slots: seq<Slot>, s: int, topic: string, messages: seq<Fields>)
    requires forall i :: 0 <= i < |messages| ==> Sendable(topic, messages[i])
    ensures var rx := LR.FeedAll(LR.Rx("", []), Wire(topic, messages));
            rx.tail == "" && Calls(slots, s, rx.lines) == ExpectedCalls(slots, s, topic, messages)
  {
    WireSplits(topic, messages);
    CallsExpected(slots, s, topic, messages);
    LR.WholeLines(Wire(topic, messages), Lines(topic, messages));
    hide LR.IsSplit, LR.FeedAll, Wire, Calls, ExpectedCalls, Line, LR.Delivered;
    forall i | 0 <= i < |messages| ensures LR.AllDelivered(Lines(topic, messages))[i] == Lines(topic, messages)[i] {
      LineIsPlain(topic, messages[i]);
    }
    assert LR.AllDelivered(Lines(topic, messages)) == Lines(topic, messages);
  }

  /** The subscriber side: receive the stream in whatever pieces and handle each line. */
  method Subscribe(receiver: LR.Receiver, slots: seq<Slot>, s: int, stream: string, cuts: seq<nat>)
    returns (calls: seq<Callback>)
    requires receiver.Valid() && receiver.rxlen == 0
    modifies receiver, receiver.rxbuf
    ensures receiver.Valid()
    ensures calls == Calls(slots, s, LR.FeedAll(LR.Rx("", []), stream).lines)
  {
    hide LR.FeedAll, Handled;
    var lines := receiver.ReceiveStream(stream, cuts);
    calls := [];
    for i := 0 to |lines|
      invariant receiver.Valid()
      invariant Calls(slots, s, lines) == calls + Calls(slots, s, lines[i..])
    {
      var call := HandleLine(slots, s, lines[i]);
      assert lines[i..][1..] == lines[i + 1..];
      if call.Some? {
        calls := calls + [call.value];
      }
    }
    assert lines[|lines|..] == [] && Calls(slots, s, lines[|lines|..]) == [];
  }
}

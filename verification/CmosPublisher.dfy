/** The publisher: formatting a message into a buffer, sending it to every subscriber, and compacting the
    subscriber array in place when a send fails. */
module CmosPublisher {
  import opened Options
  import opened CmosText

  const MAX_SUBSCRIBERS := 512
  const DATA_BUF := 896

  // ---- formatting ----

  method Print(buf: array<char>, pos: nat, text: string) returns (next: nat)
    requires pos + |text| < buf.Length
    modifies buf
    ensures next == pos + |text| && buf[..next] == old(buf[..pos]) + text
  {
    forall k | 0 <= k < |text| {
      buf[pos + k] := text[k];
    }
    buf[pos + |text|] := '\0';
    next := pos + |text|;
  }

  method PrintField(buf: array<char>, pos: nat, tag: string, field: Option<string>) returns (next: nat)
    requires pos <= buf.Length && |Add(buf[..pos], tag, field)| < buf.Length
    modifies buf
    ensures next < buf.Length || next == pos
    ensures next <= buf.Length && buf[..next] == Add(old(buf[..pos]), tag, field)
  {
    next := pos;
    if field.Some? {
      next := Print(buf, next, (if pos > 0 then " " else "") + tag + field.value);
      assert buf[..next] == old(buf[..pos]) + ((if pos > 0 then " " else "") + tag + field.value);
    }
  }

  /** Fills the buffer through a moving position; what stands before it at the end is the data text. */
  method FormatData(f: Fields) returns (text: string)
    requires f != NO_FIELDS && |Data(f)| < DATA_BUF
    ensures text == Data(f)
  {
    PartsFit(f);
    hide Add, Data;
    ghost var d1 := Add("", "state=", f.state);
    ghost var d2 := Add(d1, "type=", f.kind);
    ghost var d3 := Add(d2, "key=", f.key);
    var buf := new char[DATA_BUF];
    assert buf[..0] == "";
    var pos := PrintField(buf, 0, "state=", f.state);
    assert buf[..pos] == d1;
    pos := PrintField(buf, pos, "type=", f.kind);
    assert buf[..pos] == d2;
    pos := PrintField(buf, pos, "key=", f.key);
    assert buf[..pos] == d3;
    if f.value.Some? {
      if pos > 0 {
        pos := Print(buf, pos, " value=" + f.value.value);
        assert buf[..pos] == d3 + (" value=" + f.value.value);
      } else {
        pos := Print(buf, pos, f.value.value);
        assert buf[..pos] == d3 + f.value.value;
      }
    }
    text := buf[..pos];
  }

  lemma PartsFit(f: Fields)
    ensures var d1 := Add("", "state=", f.state);
            var d2 := Add(d1, "type=", f.kind);
            var d3 := Add(d2, "key=", f.key);
            && |d1| <= |d2| <= |d3| <= |Data(f)|
            && Data(f) == if f.value.None? then d3
                          else if |d3| > 0 then d3 + (" value=" + f.value.value)
                          else d3 + f.value.value
  {
    var d1 := Add("", "state=", f.state);
    var d2 := Add(d1, "type=", f.kind);
    AddGrows(d1, "type=", f.kind);
    AddGrows(d2, "key=", f.key);
    DataOf(f, Add(d2, "key=", f.key));
    hide Add, Data;
  }

  lemma DataOf(f: Fields, d: string)
    requires d == Add(Add(Add("", "state=", f.state), "type=", f.kind), "key=", f.key)
    ensures |d| <= |Data(f)|
    ensures Data(f) == if f.value.None? then d
                       else if |d| > 0 then d + (" value=" + f.value.value)
                       else d + f.value.value
  {
    hide Add;
    if f.value.Some? {
      assert d + " value=" + f.value.value == d + (" value=" + f.value.value);
      assert |d| == 0 ==> d + f.value.value == f.value.value;
    }
  }

  lemma AddGrows(data: string, tag: string, field: Option<string>)
    ensures |data| <= |Add(data, tag, field)|
  {}

  // ---- sending ----

  /** Of the first n subscribers those whose send succeeded, in order. */
  function Survivors(socks: seq<int>, results: seq<int>, n: nat): (kept: seq<int>)
    requires n <= |socks| <= |results|
    ensures |kept| <= n
  {
    if n == 0 then [] else Survivors(socks, results, n - 1) + if results[n - 1] > 0 then [socks[n - 1]] else []
  }

  function Dropped(socks: seq<int>, results: seq<int>, n: nat): (gone: seq<int>)
    requires n <= |socks| <= |results|
  {
    if n == 0 then [] else Dropped(socks, results, n - 1) + if results[n - 1] > 0 then [] else [socks[n - 1]]
  }

  /** The i-th subscriber, if its send succeeded, stands right after the survivors before it; if not, in
      the same way among the closed ones. */
  lemma {:induction false} SurvivorsInOrder(socks: seq<int>, results: seq<int>, n: nat, i: nat)
    requires i < n <= |socks| <= |results|
    ensures |Survivors(socks, results, n)| + |Dropped(socks, results, n)| == n
    ensures results[i] > 0 ==>
              var at := |Survivors(socks, results, i)|;
              at < |Survivors(socks, results, n)| && Survivors(socks, results, n)[at] == socks[i]
    ensures results[i] <= 0 ==>
              var at := |Dropped(socks, results, i)|;
              at < |Dropped(socks, results, n)| && Dropped(socks, results, n)[at] == socks[i]
    decreases n
  {
    if i < n - 1 {
      SurvivorsInOrder(socks, results, n - 1, i);
    } else if n > 1 {
      SurvivorsInOrder(socks, results, n - 1, 0);
    } else {
      assert Survivors(socks, results, 0) == [] && Dropped(socks, results, 0) == [];
    }
  }

  /** One call of send: the socket and what is written to it. */
  datatype Sending = Sending(sock: int, bytes: string)

  function ToAll(socks: seq<int>, line: string): (sends: seq<Sending>)
    ensures |sends| == |socks|
  {
    seq(|socks|, i requires 0 <= i < |socks| => Sending(socks[i], line))
  }

  lemma ToAllGrows(socks: seq<int>, sock: int, line: string)
    ensures ToAll(socks + [sock], line) == ToAll(socks, line) + [Sending(sock, line)]
  {}

  /** The loop after sending to sent: it left kept in front of the rest. */
  predicate Halfway(socks: seq<int>, results: seq<int>, sent: seq<int>, rest: seq<int>, kept: seq<int>,
                    closed: seq<int>)
    requires |socks| <= |results|
  {
    && socks == sent + rest
    && kept == Survivors(socks, results, |sent|) && closed == Dropped(socks, results, |sent|)
  }

  lemma NextSend(socks: seq<int>, results: seq<int>, sent: seq<int>, rest: seq<int>, kept: seq<int>,
                 closed: seq<int>)
    requires |socks| <= |results| && Halfway(socks, results, sent, rest, kept, closed) && |rest| > 0
    ensures |sent| < |results|
    ensures var sent', rest' := sent + [rest[0]], rest[1..];
            if results[|sent|] > 0 then Halfway(socks, results, sent', rest', kept + [rest[0]], closed)
            else Halfway(socks, results, sent', rest', kept, closed + [rest[0]])
  {
    assert socks == sent + [rest[0]] + rest[1..] && socks[|sent|] == rest[0];
  }

  lemma InFront(current: seq<int>, kept: seq<int>, rest: seq<int>)
    requires current == kept + rest && |rest| > 0
    ensures current[|kept|] == rest[0] && current == kept + [rest[0]] + rest[1..]
    ensures current[..|kept|] + current[|kept| + 1..] == kept + rest[1..]
  {}

  lemma StartSending(socks: seq<int>, results: seq<int>, line: string)
    requires |socks| <= |results|
    ensures Halfway(socks, results, [], socks, [], []) && ToAll([], line) == []
  {}

  lemma AllSent(socks: seq<int>, results: seq<int>, sent: seq<int>, rest: seq<int>, kept: seq<int>,
                closed: seq<int>)
    requires |socks| <= |results| && Halfway(socks, results, sent, rest, kept, closed) && |rest| == 0
    ensures sent == socks
    ensures kept == Survivors(socks, results, |socks|) && closed == Dropped(socks, results, |socks|)
  {
    assert sent + rest == sent;
  }

  class Publisher {
    const topic: string
    const subSocks: array<int>
    var subCount: nat

    ghost predicate Valid()
      reads this, subSocks
    {
      && subSocks.Length == MAX_SUBSCRIBERS && subCount <= MAX_SUBSCRIBERS
      && (forall i :: subCount <= i < MAX_SUBSCRIBERS ==> subSocks[i] == -1)
      && |topic| < 64
    }

    constructor (topic: string)
      requires |topic| < 64
      ensures Valid() && subCount == 0 && this.topic == topic && fresh(subSocks)
    {
      this.topic := topic;
      subSocks := new int[MAX_SUBSCRIBERS](_ => -1);
      subCount := 0;
    }

    /** A connection accepted by cmos_pub_poll joins the array, or is closed when the array is full. */
    method Join(sock: int) returns (closed: bool)
      requires Valid()
      modifies this, subSocks
      ensures Valid()
      ensures closed <==> sock >= 0 && old(subCount) == 512
      ensures subSocks[..subCount] == old(subSocks[..subCount]) + if sock >= 0 && !closed then [sock] else []
    {
      closed := false;
      if sock >= 0 && subCount < MAX_SUBSCRIBERS {
        subSocks[subCount] := sock;
        subCount := subCount + 1;
      } else if sock >= 0 {
        closed := true;
      }
    }

    /** Closes the gap at i. */
    method Remove(i: nat)
      requires Valid() && i < subCount
      modifies this, subSocks
      ensures Valid() && subCount == old(subCount) - 1
      ensures subSocks[..subCount] == old(subSocks[..i]) + old(subSocks[i + 1..subCount])
    {
      var k := i;
      while k < subCount - 1
        invariant subCount == old(subCount) && i <= k <= subCount - 1
        invariant forall j :: 0 <= j < MAX_SUBSCRIBERS && !(i <= j < k) ==> subSocks[j] == old(subSocks[j])
        invariant forall j :: i <= j < k ==> subSocks[j] == old(subSocks[j + 1])
      {
        subSocks[k] := subSocks[k + 1];
        k := k + 1;
      }
      subCount := subCount - 1;
      subSocks[subCount] := -1;
    }

    /** Sends the line to every subscriber; results are those of the sends, in order. */
    method SendAll(line: string, results: seq<int>) returns (sends: seq<Sending>, closed: seq<int>)
      requires Valid() && |results| >= subCount
      modifies this, subSocks
      ensures Valid()
      ensures sends == ToAll(old(subSocks[..subCount]), line)
      ensures subSocks[..subCount] == Survivors(old(subSocks[..subCount]), results, old(subCount))
      ensures closed == Dropped(old(subSocks[..subCount]), results, old(subCount))
    {
      hide ToAll, Halfway;
      ghost var socks := subSocks[..subCount];
      ghost var sent, kept, rest: seq<int> := [], [], socks;
      StartSending(socks, results, line);
      sends, closed := [], [];
      var i := 0;
      while i < subCount
        invariant Valid() && |kept| == i && subSocks[..subCount] == kept + rest
        invariant sends == ToAll(sent, line) && Halfway(socks, results, sent, rest, kept, closed)
        decreases |rest|
      {
        NextSend(socks, results, sent, rest, kept, closed);
        InFront(subSocks[..subCount], kept, rest);
        ToAllGrows(sent, rest[0], line);
        var sock, result := subSocks[i], results[|sends|];
        sends := sends + [Sending(sock, line)];
        sent, rest := sent + [sock], rest[1..];
        if result <= 0 {
          closed := closed + [sock];
          assert subSocks[..i] == subSocks[..subCount][..i];
          assert subSocks[i + 1..subCount] == subSocks[..subCount][i + 1..];
          Remove(i);
        } else {
          kept := kept + [sock];
          i := i + 1;
        }
      }
      AllSent(socks, results, sent, rest, kept, closed);
    }

    /** One send per subscriber present at the call, in order, each with the whole line; the array is left
        with the survivors as its prefix and -1 everywhere after it. */
    method Publish(f: Fields, results: seq<int>) returns (sends: seq<Sending>, closed: seq<int>)
      requires Valid() && f != NO_FIELDS && |Data(f)| < DATA_BUF && |results| >= subCount
      modifies this, subSocks
      ensures Valid()
      ensures sends == ToAll(old(subSocks[..subCount]), "MSG " + topic + " " + Data(f) + "\n")
      ensures subSocks[..subCount] == Survivors(old(subSocks[..subCount]), results, old(subCount))
      ensures closed == Dropped(old(subSocks[..subCount]), results, old(subCount))
    {
      var data := FormatData(f);
      var line := "MSG " + topic + " " + data + "\n";
      sends, closed := SendAll(line, results);
    }
  }
}

/** Reassembly of a publisher's byte stream into lines in a fixed receive buffer. */
module LineReceiver {
  import opened Options

  const RX_BUF := 2048
  const LINE_BUF := 512

  /** The unfinished tail and the lines handed on so far. */
  datatype Rx = Rx(tail: string, lines: seq<string>)

  /** Lines, and the data text of a filtered message, are copied into 512-byte buffers with a terminator. */
  function Cut(line: string): string {
    if |line| >= LINE_BUF then line[..LINE_BUF - 1] else line
  }

  /** One byte at a time: a newline ends a line; a full buffer without newline is thrown away. */
  function FeedByte(r: Rx, c: char): Rx {
    var t := r.tail + [c];
    if c == '\n' then Rx("", r.lines + [Cut(t)])
    else if |t| >= RX_BUF - 1 then Rx("", r.lines)
    else Rx(t, r.lines)
  }

  function FeedAll(r: Rx, stream: string): Rx {
    if |stream| == 0 then r else FeedByte(FeedAll(r, stream[..|stream| - 1]), stream[|stream| - 1])
  }

  lemma {:induction false} FeedConcat(r: Rx, a: string, b: string)
    ensures FeedAll(r, a + b) == FeedAll(FeedAll(r, a), b)
  {
    hide FeedByte;
    if |b| == 0 {
      assert a + b == a;
    } else {
      assert (a + b)[..|a + b| - 1] == a + b[..|b| - 1];
      FeedConcat(r, a, b[..|b| - 1]);
    }
  }

  predicate Plain(s: string) { '\n' !in s }

  // ---- what the byte machine delivers ----

  /** What is left of a newline-free stretch after each full buffer was thrown away. */
  function Kept(s: string): (k: string)
    ensures |k| < RX_BUF - 1
  {
    s[(RX_BUF - 1) * (|s| / (RX_BUF - 1))..]
  }

  lemma {:induction false} FeedPlain(lines: seq<string>, s: string)
    requires Plain(s)
    ensures FeedAll(Rx("", lines), s) == Rx(Kept(s), lines)
  {
    if |s| == 0 {
    } else {
      var n := |s| - 1;
      assert forall c :: c in s[..n] ==> c in s;
      FeedPlain(lines, s[..n]);
      assert s[n] != '\n' && s == s[..n] + [s[n]];
      KeptGrows(s[..n], s[n]);
    }
  }

  lemma KeptGrows(s: string, c: char)
    ensures Kept(s + [c]) == if |Kept(s)| == RX_BUF - 2 then "" else Kept(s) + [c]
  {
    var q := |s| / (RX_BUF - 1);
    if |Kept(s)| == RX_BUF - 2 {
      assert |s| + 1 == (RX_BUF - 1) * (q + 1);
    } else {
      assert (|s| + 1) / (RX_BUF - 1) == q;
    }
  }

  /** Lines and an unfinished rest of a stream. */
  predicate IsSplit(stream: string, lines: seq<string>, rest: string)
    decreases |lines|
  {
    if |lines| == 0 then stream == rest && Plain(rest)
    else
      var l := lines[0];
      |l| > 0 && l[|l| - 1] == '\n' && Plain(l[..|l| - 1])
      && l <= stream && IsSplit(stream[|l|..], lines[1..], rest)
  }

  function Delivered(line: string): string
    requires |line| > 0
  {
    var n := |line| - 1;
    Cut(Kept(line[..n]) + line[n..])
  }

  lemma FeedLine(lines: seq<string>, l: string)
    requires |l| > 0 && l[|l| - 1] == '\n' && Plain(l[..|l| - 1])
    ensures FeedAll(Rx("", lines), l) == Rx("", lines + [Delivered(l)])
  {
    hide Kept, Cut;
    var n := |l| - 1;
    assert l == l[..n] + l[n..] && l[n..] == ['\n'];
    FeedPlain(lines, l[..n]);
  }

  function AllDelivered(lines: seq<string>): (out: seq<string>)
    requires forall i :: 0 <= i < |lines| ==> |lines[i]| > 0
    ensures |out| == |lines|
  {
    seq(|lines|, i requires 0 <= i < |lines| => Delivered(lines[i]))
  }

  lemma {:induction false} SplitLinesNonempty(stream: string, lines: seq<string>, rest: string)
    requires IsSplit(stream, lines, rest)
    ensures forall i :: 0 <= i < |lines| ==> |lines[i]| > 0
    decreases |lines|
  {
    if |lines| > 0 {
      SplitLinesNonempty(stream[|lines[0]|..], lines[1..], rest);
      forall i | 0 <= i < |lines| ensures |lines[i]| > 0 {
        if i > 0 { assert lines[i] == lines[1..][i - 1]; }
      }
    }
  }

  lemma {:induction false} FeedSplit(before: seq<string>, stream: string, lines: seq<string>, rest: string)
    requires IsSplit(stream, lines, rest)
    ensures forall i :: 0 <= i < |lines| ==> |lines[i]| > 0
    ensures FeedAll(Rx("", before), stream) == Rx(Kept(rest), before + AllDelivered(lines))
    decreases |lines|
  {
    hide Delivered, Kept, FeedAll;
    SplitLinesNonempty(stream, lines, rest);
    if |lines| == 0 {
      FeedPlain(before, stream);
      assert before + AllDelivered(lines) == before;
    } else {
      var l := lines[0];
      assert stream == l + stream[|l|..];
      FeedConcat(Rx("", before), l, stream[|l|..]);
      FeedLine(before, l);
      FeedSplit(before + [Delivered(l)], stream[|l|..], lines[1..], rest);
      assert before + [Delivered(l)] + AllDelivered(lines[1..]) == before + AllDelivered(lines);
    }
  }

  // ---- every stream has exactly one split ----

  function NewlineAt(s: string, from: nat): (at: Option<nat>)
    requires from <= |s| && Plain(s[..from])
    ensures at.Some? ==> at.value < |s| && s[at.value] == '\n' && Plain(s[..at.value])
    ensures at.None? ==> Plain(s)
    decreases |s| - from
  {
    if from == |s| then assert s[..from] == s; None
    else if s[from] == '\n' then Some(from)
    else assert s[..from + 1] == s[..from] + [s[from]]; NewlineAt(s, from + 1)
  }

  /** The newline-terminated lines of a stream. */
  function LinesOf(stream: string): (lines: seq<string>)
    ensures forall i :: 0 <= i < |lines| ==> |lines[i]| > 0
    decreases |stream|
  {
    match NewlineAt(stream, 0)
    case None => []
    case Some(at) => [stream[..at + 1]] + LinesOf(stream[at + 1..])
  }

  /** What comes after its last newline. */
  function RestOf(stream: string): string
    decreases |stream|
  {
    match NewlineAt(stream, 0)
    case None => stream
    case Some(at) => RestOf(stream[at + 1..])
  }

  lemma {:induction false} EveryStreamSplits(stream: string)
    ensures IsSplit(stream, LinesOf(stream), RestOf(stream))
    decreases |stream|
  {
    match NewlineAt(stream, 0)
    case None =>
    case Some(at) =>
      EveryStreamSplits(stream[at + 1..]);
      var l := stream[..at + 1];
      assert l[..at] == stream[..at] && LinesOf(stream)[1..] == LinesOf(stream[at + 1..]);
  }

  lemma PlainAt(s: string, k: nat, n: nat)
    requires k < n <= |s| && Plain(s[..n])
    ensures s[k] != '\n' && Plain(s[..k])
  {
    assert s[k] == s[..n][k];
    assert s[..k] <= s[..n];
  }

  /** Two lines a stream begins with end at the same newline. */
  lemma SameLine(stream: string, a: nat, b: nat)
    requires a < |stream| && b < |stream| && stream[a] == stream[b] == '\n'
    requires Plain(stream[..a]) && Plain(stream[..b])
    ensures a == b
  {
    if a < b {
      PlainAt(stream, a, b);
    } else if b < a {
      PlainAt(stream, b, a);
    }
  }

  lemma {:induction false} SplitIsUnique(stream: string, lines: seq<string>, rest: string)
    requires IsSplit(stream, lines, rest)
    ensures lines == LinesOf(stream) && rest == RestOf(stream)
    decreases |lines|
  {
    if |lines| > 0 {
      var l := lines[0];
      var b := |l| - 1;
      assert l == stream[..|l|] && l[..b] == stream[..b] && stream[b] == '\n';
      var at := NewlineAt(stream, 0);
      assert at.Some? by { assert '\n' in stream; }
      SameLine(stream, at.value, b);
      SplitIsUnique(stream[|l|..], lines[1..], rest);
    }
  }

  /** For every stream: each of its lines arrives, short of every full buffer of its text that went by without
      a newline, and cut to 511 bytes; the buffer holds what is left of the unfinished rest. */
  lemma StreamDelivers(stream: string)
    ensures IsSplit(stream, LinesOf(stream), RestOf(stream))
    ensures var rest := RestOf(stream);
            FeedAll(Rx("", []), stream) == Rx(rest[2047 * (|rest| / 2047)..], AllDelivered(LinesOf(stream)))
  {
    EveryStreamSplits(stream);
    FeedSplit([], stream, LinesOf(stream), RestOf(stream));
  }

  /** A stream of whole lines leaves nothing behind. */
  lemma WholeLines(stream: string, lines: seq<string>)
    requires IsSplit(stream, lines, "")
    ensures forall i :: 0 <= i < |lines| ==> |lines[i]| > 0
    ensures FeedAll(Rx("", []), stream) == Rx("", AllDelivered(lines))
  {
    hide FeedAll, IsSplit, AllDelivered;
    FeedSplit([], stream, lines, "");
    KeptShort("");
    assert [] + AllDelivered(lines) == AllDelivered(lines);
  }

  /** How many full buffers of a line are thrown away before its newline comes. */
  function Overruns(line: string): nat
    requires |line| > 0
  {
    (|line| - 1) / 2047
  }

  /** A line arrives as what stands after the last discarded buffer, cut to 511 bytes. */
  lemma DeliveredTail(line: string)
    requires |line| > 0
    ensures 2047 * Overruns(line) < |line|
    ensures var tail := line[2047 * Overruns(line)..]; Delivered(line) == if |tail| <= 511 then tail else tail[..511]
  {
    var n, from := |line| - 1, 2047 * Overruns(line);
    assert line[..n][from..] + line[n..] == line[from..];
  }

  /** A line arrives as its own first 511 bytes exactly when it fits the buffer, or when what stands after
      the discarded buffers is long enough and begins with the same 511 bytes. */
  lemma DeliveredWhole(line: string)
    requires |line| > 0 && line[|line| - 1] == '\n' && Plain(line[..|line| - 1])
    ensures var from, whole := 2047 * Overruns(line), if |line| <= 511 then line else line[..511];
            Delivered(line) == whole <==>
            |line| <= 2047 || (|line| - from >= 512 && line[from..from + 511] == line[..511])
  {
    DeliveredTail(line);
    var from := 2047 * Overruns(line);
    hide Delivered, Overruns;
    if |line| > 2047 {
      var tail := line[from..];
      if |tail| >= 512 {
        assert tail[..511] == line[from..from + 511];
      } else {
        assert tail[|tail| - 1] == '\n';
        PlainAt(line, 511, |line| - 1);
      }
    }
  }

  // ---- the receive loop ----

  lemma StartFeeding(text: string)
    ensures Plain(text[0..0]) && FeedAll(Rx("", []), text[..0]) == Rx(Pending(text, 0, 0), [])
  {}

  lemma PendingIs(text: string, start: nat)
    requires start <= |text|
    ensures Pending(text, start, |text|) == if |text| - start < RX_BUF - 1 then text[start..|text|] else ""
  {}

  lemma KeptShort(s: string)
    requires |s| < RX_BUF - 1
    ensures Kept(s) == s
  {}

  lemma CutSlice(text: string, start: nat, k: nat)
    requires start <= k < |text|
    ensures Cut(text[start..k + 1]) ==
            text[start..start + if k - start + 1 >= LINE_BUF then LINE_BUF - 1 else k - start + 1]
  {}

  /** What the buffer keeps of a line that is not complete at k; the end of a full buffer is thrown away. */
  function Pending(text: string, start: nat, k: nat): string
    requires start <= k <= |text|
  {
    if k - start < RX_BUF - 1 then text[start..k] else ""
  }

  lemma FeedNext(text: string, start: nat, k: nat, lines: seq<string>)
    requires start <= k < |text| < RX_BUF && Plain(text[start..k])
    requires FeedAll(Rx("", []), text[..k]) == Rx(Pending(text, start, k), lines)
    ensures text[k] == '\n' ==>
              FeedAll(Rx("", []), text[..k + 1]) == Rx(Pending(text, k + 1, k + 1), lines + [Cut(text[start..k + 1])])
              && Plain(text[k + 1..k + 1])
    ensures text[k] != '\n' ==>
              FeedAll(Rx("", []), text[..k + 1]) == Rx(Pending(text, start, k + 1), lines)
              && Plain(text[start..k + 1])
  {
    hide Cut;
    assert text[..k + 1][..k] == text[..k];
    assert text[start..k] + [text[k]] == text[start..k + 1];
  }

  lemma SliceOfSlice(a: array<char>, n: nat, i: nat, j: nat)
    requires i <= j <= n <= a.Length
    ensures a[i..j] == a[..n][i..j]
  {}

  class Receiver {
    const rxbuf: array<char>
    var rxlen: nat

    ghost predicate Valid()
      reads this, rxbuf
    {
      rxbuf.Length == RX_BUF && rxlen < RX_BUF - 1 && Plain(rxbuf[..rxlen])
    }

    constructor ()
      ensures Valid() && rxlen == 0 && fresh(rxbuf)
    {
      rxbuf := new char[RX_BUF](_ => '\0');
      rxlen := 0;
    }

    /** The space offered to recv. */
    function Room(): (n: nat)
      requires rxlen < RX_BUF - 1
      reads this
      ensures n == 2047 - rxlen && n > 0
    {
      RX_BUF - 1 - rxlen
    }

    /** Hands on every complete line of the buffer; start is where the unfinished rest begins. */
    method SplitBuffer() returns (lines: seq<string>, start: nat)
      requires rxbuf.Length == RX_BUF && rxlen < RX_BUF
      ensures start <= rxlen && Plain(rxbuf[start..rxlen])
      ensures FeedAll(Rx("", []), rxbuf[..rxlen])
           == Rx(if rxlen - start < RX_BUF - 1 then rxbuf[start..rxlen] else "", lines)
    {
      hide FeedAll, FeedByte, Cut, Pending, Plain;
      ghost var text := rxbuf[..rxlen];
      lines, start := [], 0;
      StartFeeding(text);
      for k := 0 to rxlen
        invariant start <= k && Plain(text[start..k])
        invariant FeedAll(Rx("", []), text[..k]) == Rx(Pending(text, start, k), lines)
      {
        FeedNext(text, start, k, lines);
        if rxbuf[k] == '\n' {
          var ll := k - start + 1;
          if ll >= LINE_BUF {
            ll := LINE_BUF - 1;
          }
          CutSlice(text, start, k);
          SliceOfSlice(rxbuf, rxlen, start, start + ll);
          lines := lines + [rxbuf[start..start + ll]];
          start := k + 1;
        }
      }
      SliceOfSlice(rxbuf, rxlen, start, rxlen);
      assert text[..rxlen] == text;
      PendingIs(text, start);
    }

    /** One recv result: append it, hand on every complete line, move the rest to the front, and drop a
        full buffer. The effect is that of feeding its bytes one at a time. */
    method Receive(chunk: string) returns (lines: seq<string>)
      requires Valid() && 0 < |chunk| <= Room()
      modifies this, rxbuf
      ensures Valid()
      ensures Rx(rxbuf[..rxlen], lines) == FeedAll(Rx(old(rxbuf[..rxlen]), []), chunk)
    {
      hide FeedAll, FeedByte, Kept;
      FeedPlain([], rxbuf[..rxlen]);
      KeptShort(rxbuf[..rxlen]);
      FeedConcat(Rx("", []), rxbuf[..rxlen], chunk);
      Append(chunk);
      var start;
      lines, start := SplitBuffer();
      if start > 0 {
        Shift(start);
      }
      if rxlen >= RX_BUF - 1 {
        rxlen := 0;
      }
    }

    method Append(chunk: string)
      requires rxbuf.Length == RX_BUF && rxlen + |chunk| < RX_BUF
      modifies this, rxbuf
      ensures rxlen == old(rxlen) + |chunk| && rxbuf[..rxlen] == old(rxbuf[..rxlen]) + chunk
    {
      forall k | 0 <= k < |chunk| {
        rxbuf[rxlen + k] := chunk[k];
      }
      rxlen := rxlen + |chunk|;
    }

    /** memmove of the bytes from start on to the front. */
    method Shift(start: nat)
      requires start <= rxlen <= rxbuf.Length
      modifies this, rxbuf
      ensures rxlen == old(rxlen) - start && rxbuf[..rxlen] == old(rxbuf[start..rxlen])
    {
      forall k | 0 <= k < rxlen - start {
        rxbuf[k] := rxbuf[start + k];
      }
      rxlen := rxlen - start;
    }

    /** A whole stream, cut by recv as cuts say (at least a byte, at most what fits or is there): the
        lines handed on and the bytes left do not depend on the cuts. */
    method ReceiveStream(stream: string, cuts: seq<nat>) returns (lines: seq<string>)
      requires Valid() && rxlen == 0
      modifies this, rxbuf
      ensures Valid()
      ensures Rx(rxbuf[..rxlen], lines) == FeedAll(Rx("", []), stream)
    {
      lines := [];
      var pos, i := 0, 0;
      while pos < |stream|
        invariant Valid() && pos <= |stream|
        invariant Rx(rxbuf[..rxlen], lines) == FeedAll(Rx("", []), stream[..pos])
      {
        var most := if Room() <= |stream| - pos then Room() else |stream| - pos;
        var want := if i < |cuts| then cuts[i] else most;
        var n := if want == 0 then 1 else if want <= most then want else most;
        ghost var tail := rxbuf[..rxlen];
        var more := Receive(stream[pos..pos + n]);
        FeedConcat(Rx("", []), stream[..pos], stream[pos..pos + n]);
        assert stream[..pos] + stream[pos..pos + n] == stream[..pos + n];
        LinesAccumulate(tail, lines, stream[pos..pos + n]);
        lines := lines + more;
        pos := pos + n;
        i := i + 1;
      }
      assert stream[..pos] == stream;
    }
  }

  lemma {:induction false} LinesAccumulate(tail: string, lines: seq<string>, chunk: string)
    ensures var r := FeedAll(Rx(tail, []), chunk);
            FeedAll(Rx(tail, lines), chunk) == Rx(r.tail, lines + r.lines)
  {
    hide Cut;
    if |chunk| > 0 {
      LinesAccumulate(tail, lines, chunk[..|chunk| - 1]);
    }
  }
}

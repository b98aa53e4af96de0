/** The subscriber's table of publisher connections. */
module ConnectionTable {
  import opened Options
  import opened CmosText

  const MAX_CONNECTIONS := 512
  const NAME_MAX := 63

  /** One slot; received counts the bytes waiting in its receive buffer. */
  datatype Conn = Conn(sock: int, node: string, received: nat, active: bool, subSlot: int)

  const RESET := Conn(-1, "", 0, false, -1)

  function Stored(name: string): (s: string)
    ensures |s| <= NAME_MAX
  {
    if |name| <= NAME_MAX then name else name[..NAME_MAX]
  }

  function Count(conns: seq<Conn>): nat {
    if |conns| == 0 then 0
    else Count(conns[..|conns| - 1]) + if conns[|conns| - 1].active then 1 else 0
  }

  predicate Same(c: Conn, node: string, subSlot: int) {
    c.active && c.subSlot == subSlot && c.node == node
  }

  /** No two active entries are for the same publisher and subscription. */
  predicate Unique(conns: seq<Conn>) {
    forall i, j :: 0 <= i < j < |conns| && conns[i].active && conns[j].active ==>
      !(conns[i].node == conns[j].node && conns[i].subSlot == conns[j].subSlot)
  }

  predicate Tidy(conns: seq<Conn>) {
    forall i :: 0 <= i < |conns| ==>
      if conns[i].active then conns[i].sock >= 0 && |conns[i].node| <= NAME_MAX else conns[i] == RESET
  }

  lemma {:induction false} CountUpdate(conns: seq<Conn>, i: nat, c: Conn)
    requires i < |conns|
    ensures Count(conns[i := c]) + (if conns[i].active then 1 else 0) == Count(conns) + (if c.active then 1 else 0)
  {
    var n := |conns| - 1;
    if i < n {
      CountUpdate(conns[..n], i, c);
      assert conns[i := c][..n] == conns[..n][i := c];
    } else {
      assert conns[i := c][..n] == conns[..n];
    }
  }

  lemma {:induction false} CountNone(conns: seq<Conn>)
    requires forall i :: 0 <= i < |conns| ==> !conns[i].active
    ensures Count(conns) == 0
  {
    if |conns| > 0 { CountNone(conns[..|conns| - 1]); }
  }

  /** The count is the number of active entries. */
  lemma {:induction false} CountMeaning(conns: seq<Conn>)
    ensures Count(conns) == |set i | 0 <= i < |conns| && conns[i].active|
  {
    if |conns| > 0 {
      var n := |conns| - 1;
      CountMeaning(conns[..n]);
      var before := set i | 0 <= i < n && conns[..n][i].active;
      var all := set i | 0 <= i < |conns| && conns[i].active;
      assert all == if conns[n].active then before + {n} else before;
    }
  }

  // ---- one add, as a function ----

  function FirstSame(conns: seq<Conn>, node: string, subSlot: int, from: nat): (at: Option<nat>)
    ensures at.Some? ==> from <= at.value < |conns| && Same(conns[at.value], node, subSlot)
    ensures at.None? ==> forall i :: from <= i < |conns| ==> !Same(conns[i], node, subSlot)
    decreases |conns| - from
  {
    if from >= |conns| then None
    else if Same(conns[from], node, subSlot) then Some(from)
    else FirstSame(conns, node, subSlot, from + 1)
  }

  function FirstFree(conns: seq<Conn>, from: nat): (at: Option<nat>)
    ensures at.Some? ==> from <= at.value < |conns| && !conns[at.value].active
    ensures at.Some? ==> forall i :: from <= i < at.value ==> conns[i].active
    ensures at.None? ==> forall i :: from <= i < |conns| ==> conns[i].active
    decreases |conns| - from
  {
    if from >= |conns| then None else if !conns[from].active then Some(from) else FirstFree(conns, from + 1)
  }

  function Added(conns: seq<Conn>, subSlot: int, node: string, sock: int): (next: seq<Conn>)
    ensures |next| == |conns|
  {
    if FirstSame(conns, node, subSlot, 0).Some? then conns
    else match FirstFree(conns, 0)
      case None => conns
      case Some(i) => if sock < 0 then conns else conns[i := Conn(sock, Stored(node), 0, true, subSlot)]
  }

  function AddResult(conns: seq<Conn>, subSlot: int, node: string, sock: int): int {
    if FirstSame(conns, node, subSlot, 0).Some? || (FirstFree(conns, 0).Some? && sock >= 0) then 0 else -1
  }

  /** Whether an add really fills a slot. */
  predicate Fills(conns: seq<Conn>, subSlot: int, node: string, sock: int) {
    FirstSame(conns, node, subSlot, 0).None? && FirstFree(conns, 0).Some? && sock >= 0
  }

  /** What an add does: nothing when the publisher is already connected for the subscription; otherwise, if
      the connection is made, the lowest inactive entry is filled. It succeeds in exactly these two cases. */
  lemma AddMeaning(conns: seq<Conn>, subSlot: int, node: string, sock: int)
    ensures var same := exists i :: 0 <= i < |conns| && conns[i].active && conns[i].subSlot == subSlot
                                    && conns[i].node == node;
            var free := exists i :: 0 <= i < |conns| && !conns[i].active;
            && AddResult(conns, subSlot, node, sock) == (if same || (free && sock >= 0) then 0 else -1)
            && (same || !free || sock < 0 ==> Added(conns, subSlot, node, sock) == conns)
            && (!same && sock >= 0 ==>
                  forall i :: 0 <= i < |conns| && !conns[i].active && (forall k :: 0 <= k < i ==> conns[k].active) ==>
                    Added(conns, subSlot, node, sock) ==
                    conns[i := Conn(sock, if |node| <= 63 then node else node[..63], 0, true, subSlot)])
  {
    var found := FirstSame(conns, node, subSlot, 0);
    if found.Some? { assert Same(conns[found.value], node, subSlot); }
    if found.None? { assert forall i :: 0 <= i < |conns| ==> !Same(conns[i], node, subSlot); }
  }

  /** Adding keeps the entries distinct exactly unless it fills a slot for a name of more than 63
      characters whose stored 63-character form is already there for the same subscription. */
  lemma AddKeepsUnique(conns: seq<Conn>, subSlot: int, node: string, sock: int)
    requires Unique(conns)
    ensures Unique(Added(conns, subSlot, node, sock)) <==>
            !(Fills(conns, subSlot, node, sock) && |node| > 63
              && FirstSame(conns, Stored(node), subSlot, 0).Some?)
  {
    if Fills(conns, subSlot, node, sock) {
      var i := FirstFree(conns, 0).value;
      var next := Added(conns, subSlot, node, sock);
      match FirstSame(conns, Stored(node), subSlot, 0)
      case None =>
        forall a, b | 0 <= a < b < |next| && next[a].active && next[b].active
          ensures !(next[a].node == next[b].node && next[a].subSlot == next[b].subSlot)
        {
          assert a != i && b != i ==> next[a] == conns[a] && next[b] == conns[b];
          assert a == i ==> next[b] == conns[b] && !Same(conns[b], Stored(node), subSlot);
          assert b == i ==> next[a] == conns[a] && !Same(conns[a], Stored(node), subSlot);
        }
      case Some(k) =>
        assert k != i && next[k] == conns[k] && Same(next[i], Stored(node), subSlot);
        assert next[k].node == next[i].node && next[k].subSlot == next[i].subSlot;
        assert k < i || i < k;
    }
  }

  /** A name of more than 63 characters does get connected twice: the second add compares the whole name with
      the cut one, does not find it, and fills another slot. */
  lemma LongNameTwice(conns: seq<Conn>, subSlot: int, node: string, sock: int, sock2: int)
    requires |conns| == MAX_CONNECTIONS && (forall i :: 0 <= i < |conns| ==> conns[i] == RESET)
    requires |node| > NAME_MAX && sock >= 0 && sock2 >= 0
    ensures var once := Added(conns, subSlot, node, sock);
            Unique(once) && AddResult(once, subSlot, node, sock2) == 0
            && !Unique(Added(once, subSlot, node, sock2))
  {
    var once := Added(conns, subSlot, node, sock);
    assert once == conns[0 := Conn(sock, Stored(node), 0, true, subSlot)];
    AddKeepsUnique(conns, subSlot, node, sock);
    assert Same(once[0], Stored(node), subSlot) && !once[1].active;
    AddKeepsUnique(once, subSlot, node, sock2);
  }

  // ---- the table ----

  class Table {
    const conns: array<Conn>
    var pubCount: nat

    ghost predicate Valid()
      reads this, conns
    {
      conns.Length == MAX_CONNECTIONS && pubCount == Count(conns[..]) && Tidy(conns[..])
    }

    constructor ()
      ensures Valid() && pubCount == 0 && fresh(conns)
      ensures forall i :: 0 <= i < MAX_CONNECTIONS ==> conns[i] == RESET
    {
      conns := new Conn[MAX_CONNECTIONS](_ => RESET);
      pubCount := 0;
      new;
      CountNone(conns[..]);
    }

    method CloseConn(idx: int)
      requires Valid()
      modifies this, conns
      ensures Valid()
      ensures conns[..] == if 0 <= idx < 512 then old(conns[..])[idx := Conn(-1, "", 0, false, -1)] else old(conns[..])
    {
      if idx < 0 || idx >= MAX_CONNECTIONS {
        return;
      }
      CountUpdate(conns[..], idx, RESET);
      if conns[idx].active {
        pubCount := pubCount - 1;
      }
      conns[idx] := RESET;
    }

    method FindConn(node: string, subSlot: int) returns (at: int)
      requires Valid()
      ensures at == match FirstSame(conns[..], node, subSlot, 0) case None => -1 case Some(i) => i
    {
      for i := 0 to MAX_CONNECTIONS
        invariant FirstSame(conns[..], node, subSlot, 0) == FirstSame(conns[..], node, subSlot, i)
      {
        assert conns[..][i] == conns[i];
        if conns[i].active && conns[i].subSlot == subSlot && conns[i].node == node {
          return i;
        }
      }
      return -1;
    }

    method FindFree() returns (at: int)
      requires Valid()
      ensures at == match FirstFree(conns[..], 0) case None => -1 case Some(i) => i
    {
      for i := 0 to MAX_CONNECTIONS
        invariant FirstFree(conns[..], 0) == FirstFree(conns[..], i)
      {
        assert conns[..][i] == conns[i];
        if !conns[i].active {
          return i;
        }
      }
      return -1;
    }

    /** sock is what connect_tcp returns, if it is called. */
    method AddPub(subSlot: int, node: string, sock: int) returns (result: int)
      requires Valid()
      modifies this, conns
      ensures Valid()
      ensures conns[..] == Added(old(conns[..]), subSlot, node, sock)
      ensures result == AddResult(old(conns[..]), subSlot, node, sock)
    {
      var same := FindConn(node, subSlot);
      if same >= 0 {
        return 0;
      }
      var slot := FindFree();
      if slot < 0 {
        return -1;
      }
      if sock < 0 {
        return -1;
      }
      var entry := Conn(sock, Stored(node), 0, true, subSlot);
      CountUpdate(conns[..], slot, entry);
      assert conns[..][slot] == conns[slot];
      conns[slot] := entry;
      pubCount := pubCount + 1;
      return 0;
    }

    /** ctx_active_count. */
    method ActiveCount() returns (n: nat)
      requires Valid()
      ensures n == pubCount
    {
      n := 0;
      for i := 0 to MAX_CONNECTIONS
        invariant n == Count(conns[..i])
      {
        assert conns[..i + 1][..i] == conns[..i];
        assert conns[i] == conns[..][i];
        if conns[i].active && conns[i].sock >= 0 {
          n := n + 1;
        }
      }
      assert conns[..MAX_CONNECTIONS] == conns[..];
    }

    /** The replies to one LOOKUP_TOPIC, line by line up to END; each PUBINFO line adds a connection. */
    method Lookup(subSlot: int, lines: seq<string>, socks: seq<int>) returns (result: int)
      requires Valid()
      modifies this, conns
      ensures Valid()
      ensures conns[..] == LookupRun(old(conns[..]), subSlot, lines, socks).conns
      ensures result == LookupRun(old(conns[..]), subSlot, lines, socks).result
    {
      hide Added, AddResult, NodeOf;
      ghost var before := conns[..];
      var found := false;
      for i := 0 to |lines|
        invariant Valid()
        invariant LookupRun(before, subSlot, lines, socks) == LookupFrom(conns[..], subSlot, lines, socks, i, found)
      {
        if lines[i] == "END\n" {
          return if found then 0 else -1;
        }
        var node := NodeOf(lines[i]);
        if node.Some? {
          var added := AddPub(subSlot, node.value, SockAt(socks, i));
          if added == 0 {
            found := true;
          }
        }
      }
      return -1;
    }
  }

  function SockAt(socks: seq<int>, i: nat): int { if i < |socks| then socks[i] else -1 }

  /** The node name of a PUBINFO line that has all its fields. */
  function NodeOf(line: string): Option<string> {
    if !("PUBINFO " <= line) then None
    else
      match Strtok(CStr(line), " \r\n")
      case NoToken => None
      case Token(_, r1) =>
        match Strtok(r1, " \r\n")
        case NoToken => None
        case Token(_, r2) =>
          match Strtok(r2, " \r\n")
          case NoToken => None
          case Token(_, r3) =>
            match Strtok(r3, " \r\n")
            case NoToken => None
            case Token(_, r4) =>
              match Strtok(r4, " \r\n")
              case NoToken => None
              case Token(node, _) => Some(node)
  }

  predicate Words(words: seq<string>) {
    forall i :: 0 <= i < |words| ==> |words[i]| > 0 && Free(words[i], " \r\n\0")
  }

  /** Words separated by single spaces, and the newline. */
  function Text(words: seq<string>): string {
    if |words| == 0 then "" else Join(words) + "\n"
  }

  lemma TextFree(words: seq<string>)
    requires Words(words)
    ensures Free(Text(words), "\0")
  {
    assert '\0' in " \r\n\0" by { assert " \r\n\0"[3] == '\0'; }
    JoinFree(words, "\0");
  }

  /** strtok takes the words off one by one. */
  lemma FirstWord(words: seq<string>)
    requires Words(words)
    ensures Strtok(Text(words), " \r\n") == if |words| == 0 then NoToken else Token(words[0], Text(words[1..]))
  {
    StrtokNothing(" \r\n");
    if |words| > 0 {
      var word := words[0];
      assert Free(word, " \r\n") by { assert forall c :: c in " \r\n" ==> c in " \r\n\0"; }
      assert " \r\n"[0] == ' ' && " \r\n"[2] == '\n';
      assert Text(words) == if |words| == 1 then word + ['\n'] + "" else word + [' '] + Text(words[1..]);
      hide Strtok, Text, Free;
      if |words| == 1 {
        StrtokWord(word, '\n', "", " \r\n");
        EmptyText(words[1..]);
      } else {
        StrtokWord(word, ' ', Text(words[1..]), " \r\n");
      }
    }
  }

  lemma EmptyText(words: seq<string>)
    requires |words| == 0
    ensures Text(words) == ""
  {}

  /** What the n-th call of strtok returns, counting from 0. */
  function NthToken(s: string, n: nat): Option<string>
    decreases n
  {
    match Strtok(s, " \r\n")
    case NoToken => None
    case Token(text, rest) => if n == 0 then Some(text) else NthToken(rest, n - 1)
  }

  lemma NthUnfolds(s: string, n: nat, t: Token)
    requires t == Strtok(s, " \r\n")
    ensures NthToken(s, n) == if t.NoToken? then None else if n == 0 then Some(t.text) else NthToken(t.rest, n - 1)
  {
    hide Strtok;
  }

  lemma {:induction false} NthWord(words: seq<string>, n: nat)
    requires Words(words)
    ensures NthToken(Text(words), n) == if n < |words| then Some(words[n]) else None
    decreases n
  {
    hide Strtok, Text, NthToken, Free;
    FirstWord(words);
    NthUnfolds(Text(words), n, Strtok(Text(words), " \r\n"));
    if n > 0 && |words| > 0 {
      NthWord(words[1..], n - 1);
    }
  }

  lemma NodeIsFifth(line: string)
    ensures NodeOf(line) == if "PUBINFO " <= line then NthToken(CStr(line), 4) else None
  {
    hide Strtok, CStr, NthToken;
    var t0 := Strtok(CStr(line), " \r\n");
    NthUnfolds(CStr(line), 4, t0);
    if t0.Token? {
      var t1 := Strtok(t0.rest, " \r\n");
      NthUnfolds(t0.rest, 3, t1);
      if t1.Token? {
        var t2 := Strtok(t1.rest, " \r\n");
        NthUnfolds(t1.rest, 2, t2);
        if t2.Token? {
          var t3 := Strtok(t2.rest, " \r\n");
          NthUnfolds(t2.rest, 1, t3);
          if t3.Token? {
            NthUnfolds(t3.rest, 0, Strtok(t3.rest, " \r\n"));
          }
        }
      }
    }
  }

  /** Of any line that begins with PUBINFO the fifth word is the publisher's name; without one it has none. */
  lemma NodeOfWords(words: seq<string>)
    requires Words(words) && "PUBINFO " <= Text(words)
    ensures NodeOf(Text(words)) == if |words| >= 5 then Some(words[4]) else None
  {
    hide Text, NodeOf, NthToken, Free, CStr;
    TextFree(words);
    CStrClean(Text(words));
    NodeIsFifth(Text(words));
    NthWord(words, 4);
  }

  lemma JoinFive(a: string, b: string, c: string, d: string, e: string)
    ensures Join([a, b, c, d, e]) == a + " " + b + " " + c + " " + d + " " + e
  {
    assert [a, b, c, d, e][1..] == [b, c, d, e] && [b, c, d, e][1..] == [c, d, e];
    assert [c, d, e][1..] == [d, e] && [d, e][1..] == [e];
    assert Join([d, e]) == d + " " + e;
    assert Join([c, d, e]) == c + " " + (d + " " + e);
    assert Join([b, c, d, e]) == b + " " + (c + " " + (d + " " + e));
  }

  /** A full PUBINFO line names its publisher last. */
  lemma NodeOfLine(topic: string, ip: string, port: string, node: string)
    requires Words([topic, ip, port, node])
    ensures NodeOf("PUBINFO " + topic + " " + ip + " " + port + " " + node + "\n") == Some(node)
  {
    var words := ["PUBINFO", topic, ip, port, node];
    FiveAreWords(topic, ip, port, node);
    JoinFive("PUBINFO", topic, ip, port, node);
    hide NodeOf, Words, Join;
    assert "PUBINFO" + " " == "PUBINFO ";
    assert Text(words) == "PUBINFO " + topic + " " + ip + " " + port + " " + node + "\n";
    NodeOfWords(words);
  }

  lemma FiveAreWords(topic: string, ip: string, port: string, node: string)
    requires Words([topic, ip, port, node])
    ensures Words(["PUBINFO", topic, ip, port, node])
  {
    var words := [topic, ip, port, node];
    assert words[0] == topic && words[1] == ip && words[2] == port && words[3] == node;
    assert Free("PUBINFO", " \r\n\0");
  }

  datatype LookupEnd = LookupEnd(conns: seq<Conn>, result: int)

  function LookupFrom(conns: seq<Conn>, subSlot: int, lines: seq<string>, socks: seq<int>,
                      i: nat, found: bool): LookupEnd
    decreases |lines| - i
  {
    if i >= |lines| then LookupEnd(conns, -1)
    else if lines[i] == "END\n" then LookupEnd(conns, if found then 0 else -1)
    else
      match NodeOf(lines[i])
      case None => LookupFrom(conns, subSlot, lines, socks, i + 1, found)
      case Some(node) =>
        var sock := SockAt(socks, i);
        LookupFrom(Added(conns, subSlot, node, sock), subSlot, lines, socks, i + 1,
                   found || AddResult(conns, subSlot, node, sock) == 0)
  }

  function LookupRun(conns: seq<Conn>, subSlot: int, lines: seq<string>, socks: seq<int>): LookupEnd {
    LookupFrom(conns, subSlot, lines, socks, 0, false)
  }

  /** A publisher as the master reports it. */
  datatype Info = Info(topic: string, ip: string, port: string, node: string)
  {
    predicate Sound() { Words([topic, ip, port, node]) }

    function Line(): string { "PUBINFO " + topic + " " + ip + " " + port + " " + node + "\n" }
  }

  function InfoLines(infos: seq<Info>): (lines: seq<string>)
    ensures |lines| == |infos|
  {
    seq(|infos|, i requires 0 <= i < |infos| => infos[i].Line())
  }

  /** The table after adding the first n publishers one by one. */
  function AddedAll(conns: seq<Conn>, subSlot: int, infos: seq<Info>, socks: seq<int>, n: nat): seq<Conn>
    requires n <= |infos|
  {
    if n == 0 then conns
    else Added(AddedAll(conns, subSlot, infos, socks, n - 1), subSlot, infos[n - 1].node, SockAt(socks, n - 1))
  }

  predicate Succeeds(conns: seq<Conn>, subSlot: int, infos: seq<Info>, socks: seq<int>, i: nat)
    requires i < |infos|
  {
    AddResult(AddedAll(conns, subSlot, infos, socks, i), subSlot, infos[i].node, SockAt(socks, i)) == 0
  }

  predicate SomeAdded(conns: seq<Conn>, subSlot: int, infos: seq<Info>, socks: seq<int>, n: nat)
    requires n <= |infos|
  {
    exists i :: 0 <= i < n && Succeeds(conns, subSlot, infos, socks, i)
  }

  /** The master's reply adds each reported publisher by its own name, in order; the lookup succeeds exactly
      when END comes and one of the adds succeeded, and nothing after END is looked at. */
  lemma LookupReply(conns: seq<Conn>, subSlot: int, infos: seq<Info>, socks: seq<int>, rest: seq<string>)
    requires forall i :: 0 <= i < |infos| ==> infos[i].Sound()
    ensures var added := AddedAll(conns, subSlot, infos, socks, |infos|);
            && LookupRun(conns, subSlot, InfoLines(infos) + ["END\n"] + rest, socks) ==
               LookupEnd(added, if SomeAdded(conns, subSlot, infos, socks, |infos|) then 0 else -1)
            && LookupRun(conns, subSlot, InfoLines(infos), socks) == LookupEnd(added, -1)
  {
    hide SomeAdded;
    NoneAdded(conns, subSlot, infos, socks);
    LookupAt(conns, subSlot, infos, socks, InfoLines(infos) + ["END\n"] + rest, 0);
    LookupAt(conns, subSlot, infos, socks, InfoLines(infos), 0);
  }

  lemma NoneAdded(conns: seq<Conn>, subSlot: int, infos: seq<Info>, socks: seq<int>)
    ensures !SomeAdded(conns, subSlot, infos, socks, 0)
  {}

  lemma OneMore(conns: seq<Conn>, subSlot: int, infos: seq<Info>, socks: seq<int>, n: nat)
    requires n < |infos|
    ensures SomeAdded(conns, subSlot, infos, socks, n + 1) <==>
            SomeAdded(conns, subSlot, infos, socks, n) || Succeeds(conns, subSlot, infos, socks, n)
  {
    hide Succeeds;
  }

  /** From the n-th line on. */
  lemma {:induction false} LookupAt(conns: seq<Conn>, subSlot: int, infos: seq<Info>, socks: seq<int>,
                                    lines: seq<string>, n: nat)
    requires (forall i :: 0 <= i < |infos| ==> infos[i].Sound()) && n <= |infos| && InfoLines(infos) <= lines
    requires |lines| > |infos| ==> lines[|infos|] == "END\n"
    ensures LookupFrom(AddedAll(conns, subSlot, infos, socks, n), subSlot, lines, socks, n,
                       SomeAdded(conns, subSlot, infos, socks, n)) ==
            LookupEnd(AddedAll(conns, subSlot, infos, socks, |infos|),
                      if |lines| > |infos| && SomeAdded(conns, subSlot, infos, socks, |infos|) then 0 else -1)
    decreases |infos| - n
  {
    hide Added, AddResult, NodeOf, SomeAdded, Words;
    if n < |infos| {
      var info := infos[n];
      assert lines[n] == InfoLines(infos)[n] == info.Line();
      NodeOfLine(info.topic, info.ip, info.port, info.node);
      NotEnd(info);
      OneMore(conns, subSlot, infos, socks, n);
      LookupAt(conns, subSlot, infos, socks, lines, n + 1);
    }
  }

  lemma NotEnd(info: Info)
    ensures info.Line() != "END\n"
  {
    assert info.Line()[0] == 'P' && "END\n"[0] == 'E';
  }

  // ---- whole runs ----

  datatype Op = Add(subSlot: int, node: string, sock: int) | Close(idx: int)
    | LookUp(subSlot: int, lines: seq<string>, socks: seq<int>)

  function Apply(conns: seq<Conn>, op: Op): seq<Conn> {
    match op
    case Add(subSlot, node, sock) => Added(conns, subSlot, node, sock)
    case Close(idx) => if 0 <= idx < |conns| then conns[idx := RESET] else conns
    case LookUp(subSlot, lines, socks) => LookupRun(conns, subSlot, lines, socks).conns
  }

  function ApplyAll(conns: seq<Conn>, ops: seq<Op>): seq<Conn> {
    if |ops| == 0 then conns else Apply(ApplyAll(conns, ops[..|ops| - 1]), ops[|ops| - 1])
  }

  predicate ShortNames(op: Op) {
    match op
    case Add(_, node, _) => |node| <= NAME_MAX
    case Close(_) => true
    case LookUp(_, lines, _) =>
      forall i :: 0 <= i < |lines| && NodeOf(lines[i]).Some? ==> |NodeOf(lines[i]).value| <= NAME_MAX
  }

  lemma {:induction false} LookupKeepsUnique(conns: seq<Conn>, subSlot: int, lines: seq<string>, socks: seq<int>,
                                             i: nat, found: bool)
    requires Unique(conns) && ShortNames(LookUp(subSlot, lines, socks))
    ensures Unique(LookupFrom(conns, subSlot, lines, socks, i, found).conns)
    decreases |lines| - i
  {
    hide Added, AddResult, NodeOf, Unique;
    if i < |lines| && lines[i] != "END\n" {
      match NodeOf(lines[i])
      case None => LookupKeepsUnique(conns, subSlot, lines, socks, i + 1, found);
      case Some(node) =>
        var sock := SockAt(socks, i);
        AddKeepsUnique(conns, subSlot, node, sock);
        LookupKeepsUnique(Added(conns, subSlot, node, sock), subSlot, lines, socks, i + 1,
                          found || AddResult(conns, subSlot, node, sock) == 0);
    }
  }

  /** Through every sequence of adds, closes and lookups with names of at most 63 characters, no two active
      entries are for the same publisher and subscription. */
  lemma {:induction false} RunKeepsUnique(conns: seq<Conn>, ops: seq<Op>)
    requires Unique(conns) && forall i :: 0 <= i < |ops| ==> ShortNames(ops[i])
    ensures Unique(ApplyAll(conns, ops))
  {
    hide Unique, Added, LookupFrom, ShortNames;
    if |ops| > 0 {
      var before, op := ApplyAll(conns, ops[..|ops| - 1]), ops[|ops| - 1];
      RunKeepsUnique(conns, ops[..|ops| - 1]);
      ApplyKeepsUnique(before, op);
    }
  }

  lemma ApplyKeepsUnique(conns: seq<Conn>, op: Op)
    requires Unique(conns) && ShortNames(op)
    ensures Unique(Apply(conns, op))
  {
    match op
    case Add(subSlot, node, sock) => AddKeepsUnique(conns, subSlot, node, sock);
    case Close(idx) => CloseKeepsUnique(conns, idx);
    case LookUp(subSlot, lines, socks) => LookupKeepsUnique(conns, subSlot, lines, socks, 0, false);
  }

  lemma CloseKeepsUnique(conns: seq<Conn>, idx: int)
    requires Unique(conns)
    ensures 0 <= idx < |conns| ==> Unique(conns[idx := RESET])
  {}
}

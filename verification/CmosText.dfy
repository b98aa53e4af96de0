/** The text protocol: what cmos_publish writes and how ctx_handle_line takes it apart. */
module CmosText {
  import opened Options
  import LR = LineReceiver

  // ---- C strings and strtok ----

  /** A C string ends at its first NUL. */
  function CStr(s: string): string {
    if |s| == 0 || s[0] == '\0' then "" else [s[0]] + CStr(s[1..])
  }

  datatype Token = NoToken | Token(text: string, rest: string)

  function SkipDelims(s: string, delims: string): (t: string)
    ensures |t| <= |s|
    ensures |t| > 0 ==> t[0] !in delims
  {
    if |s| > 0 && s[0] in delims then SkipDelims(s[1..], delims) else s
  }

  function TokenLength(s: string, delims: string): (n: nat)
    ensures n <= |s|
  {
    if |s| == 0 || s[0] in delims then 0 else 1 + TokenLength(s[1..], delims)
  }

  /** The next token and the string strtok continues with; the delimiter after the token is consumed. */
  function Strtok(s: string, delims: string): (t: Token)
    ensures t.Token? ==> |t.text| > 0 && |t.rest| < |s|
  {
    var u := SkipDelims(s, delims);
    if |u| == 0 then NoToken
    else
      var n := TokenLength(u, delims);
      Token(u[..n], if n < |u| then u[n + 1..] else "")
  }

  predicate Free(s: string, chars: string) {
    forall i :: 0 <= i < |s| ==> s[i] !in chars
  }

  /** The token is s[k..k + n], after k delimiters, up to a delimiter or the end; one delimiter is consumed. */
  predicate TokenAt(s: string, delims: string, t: Token, k: nat, n: nat) {
    && t.Token? && 0 < n && k + n <= |s| && t.text == s[k..k + n]
    && (forall i :: 0 <= i < k ==> s[i] in delims) && (forall i :: k <= i < k + n ==> s[i] !in delims)
    && if k + n == |s| then t.rest == "" else s[k + n] in delims && t.rest == s[k + n + 1..]
  }

  /** strtok takes the first stretch of other characters and finds nothing exactly when only delimiters are
      left. */
  lemma StrtokMeaning(s: string, delims: string)
    ensures var t := Strtok(s, delims);
            if t.NoToken? then forall i :: 0 <= i < |s| ==> s[i] in delims
            else exists k: nat, n: nat :: TokenAt(s, delims, t, k, n)
  {
    var u := SkipDelims(s, delims);
    SkipMeaning(s, delims);
    if |u| > 0 {
      var k, n := |s| - |u|, TokenLength(u, delims);
      LengthMeaning(u, delims);
      var t := Strtok(s, delims);
      hide SkipDelims, TokenLength, Strtok, TokenAt;
      TokenFound(s, delims, t, u, k, n);
    }
  }

  lemma TokenFound(s: string, delims: string, t: Token, u: string, k: nat, n: nat)
    requires k <= |s| && u == s[k..] && (forall i :: 0 <= i < k ==> s[i] in delims) && 0 < n <= |u|
    requires (forall i :: 0 <= i < n ==> u[i] !in delims) && (n < |u| ==> u[n] in delims)
    requires t == Token(u[..n], if n < |u| then u[n + 1..] else "")
    ensures TokenAt(s, delims, t, k, n)
  {
    assert forall i :: k <= i < k + n ==> s[i] == u[i - k];
    assert u[..n] == s[k..k + n];
    assert n < |u| ==> u[n] == s[k + n] && u[n + 1..] == s[k + n + 1..];
  }

  lemma {:induction false} SkipMeaning(s: string, delims: string)
    ensures var u := SkipDelims(s, delims);
            |u| <= |s| && u == s[|s| - |u|..] && forall i :: 0 <= i < |s| - |u| ==> s[i] in delims
  {
    if |s| > 0 && s[0] in delims {
      SkipMeaning(s[1..], delims);
      var u := SkipDelims(s, delims);
      assert forall i :: 1 <= i < |s| ==> s[i] == s[1..][i - 1];
    }
  }

  lemma {:induction false} LengthMeaning(s: string, delims: string)
    ensures var n := TokenLength(s, delims);
            (forall i :: 0 <= i < n ==> s[i] !in delims) && (n < |s| ==> s[n] in delims)
  {
    if |s| > 0 && s[0] !in delims {
      LengthMeaning(s[1..], delims);
      assert forall i :: 1 <= i < |s| ==> s[i] == s[1..][i - 1];
    }
  }

  lemma {:induction false} CStrMeaning(s: string)
    ensures CStr(s) <= s && '\0' !in CStr(s) && (CStr(s) == s || s[|CStr(s)|] == '\0')
  {
    if |s| > 0 && s[0] != '\0' {
      CStrMeaning(s[1..]);
      assert s == [s[0]] + s[1..];
    }
  }

  lemma {:induction false} TokenLengthAt(s: string, delims: string, n: nat)
    requires n <= |s| && Free(s[..n], delims) && (n == |s| || s[n] in delims)
    ensures TokenLength(s, delims) == n
  {
    if n > 0 {
      assert s[0] == s[..n][0];
      assert s[1..][..n - 1] == s[..n][1..];
      TokenLengthAt(s[1..], delims, n - 1);
    }
  }

  lemma StrtokWord(word: string, d: char, rest: string, delims: string)
    requires |word| > 0 && Free(word, delims) && d in delims
    ensures Strtok(word + [d] + rest, delims) == Token(word, rest)
    ensures Strtok(word, delims) == Token(word, "")
  {
    var s := word + [d] + rest;
    assert s[..|word|] == word && s[|word|] == d && s[|word| + 1..] == rest && word[..|word|] == word;
    assert s[0] == word[0];
    TokenLengthAt(s, delims, |word|);
    TokenLengthAt(word, delims, |word|);
  }

  lemma {:induction false} CStrClean(s: string)
    requires Free(s, "\0")
    ensures CStr(s) == s
  {
    if |s| > 0 { CStrClean(s[1..]); }
  }

  // ---- the message ----

  /** The four arguments of cmos_publish; None is NULL. */
  datatype Fields = Fields(state: Option<string>, kind: Option<string>, key: Option<string>, value: Option<string>)

  predicate Labelled(f: Fields) { f.state.Some? || f.kind.Some? || f.key.Some? }

  function Add(data: string, tag: string, field: Option<string>): string {
    if field.None? then data else data + (if |data| > 0 then " " else "") + tag + field.value
  }

  /** The data text: a value alone is sent bare, otherwise every field carries its label. */
  function Data(f: Fields): string {
    var d := Add(Add(Add("", "state=", f.state), "type=", f.kind), "key=", f.key);
    if f.value.None? then d else if |d| > 0 then d + " value=" + f.value.value else f.value.value
  }

  function Line(topic: string, f: Fields): string {
    "MSG " + topic + " " + Data(f) + "\n"
  }

  // ---- the subscriber's parser ----

  function Assign(p: Fields, token: string): Fields {
    if "state=" <= token then p.(state := Some(token[6..]))
    else if "type=" <= token then p.(kind := Some(token[5..]))
    else if "key=" <= token then p.(key := Some(token[4..]))
    else if "value=" <= token then p.(value := Some(token[6..]))
    else p
  }

  const NO_FIELDS := Fields(None, None, None, None)

  function ParseTokens(p: Fields, s: string): Fields
    decreases |s|
  {
    match Strtok(s, " ")
    case NoToken => p
    case Token(text, rest) => ParseTokens(Assign(p, text), rest)
  }

  /** A subscription; an empty filter does not filter. */
  datatype Slot = Slot(topic: string, state: string, kind: string, key: string, hasCallback: bool, used: bool)

  datatype Callback = Callback(topic: string, data: string)

  predicate Matches(filter: string, field: Option<string>) {
    filter == "" || field == Some(filter)
  }

  predicate Passes(slot: Slot, p: Fields) {
    Matches(slot.state, p.state) && Matches(slot.kind, p.kind) && Matches(slot.key, p.key)
  }

  function ValueText(p: Fields): string { if p.value.Some? then p.value.value else "" }

  function Deliver(slots: seq<Slot>, s: int, topic: string, data: string): Option<Callback> {
    if !(0 <= s < |slots|) || !slots[s].used || topic != slots[s].topic || !slots[s].hasCallback then None
    else if slots[s].state == "" && slots[s].kind == "" && slots[s].key == "" then Some(Callback(topic, data))
    else
      var p := ParseTokens(NO_FIELDS, LR.Cut(data));
      if !Passes(slots[s], p) then None
      else Some(Callback(topic, if slots[s].key != "" then ValueText(p) else data))
  }

  /** What ctx_handle_line does with a line: the callback it makes, if any. */
  function Handled(slots: seq<Slot>, s: int, line: string): Option<Callback> {
    match Strtok(CStr(line), " \r\n")
    case NoToken => None
    case Token(command, afterCommand) =>
      if command != "MSG" then None
      else
        match Strtok(afterCommand, " \r\n")
        case NoToken => None
        case Token(topic, afterTopic) =>
          match Strtok(afterTopic, "\r\n")
          case NoToken => None
          case Token(data, _) => Deliver(slots, s, topic, data)
  }

  /** The token loop with its four pointers. */
  method ScanFields(text: string) returns (p: Fields)
    ensures p == ParseTokens(NO_FIELDS, text)
  {
    p := NO_FIELDS;
    var t := Strtok(text, " ");
    while t.Token?
      invariant ParseTokens(NO_FIELDS, text) == if t.Token? then ParseTokens(Assign(p, t.text), t.rest) else p
      decreases if t.Token? then 1 + |t.rest| else 0
    {
      if "state=" <= t.text {
        p := p.(state := Some(t.text[6..]));
      } else if "type=" <= t.text {
        p := p.(kind := Some(t.text[5..]));
      } else if "key=" <= t.text {
        p := p.(key := Some(t.text[4..]));
      } else if "value=" <= t.text {
        p := p.(value := Some(t.text[6..]));
      }
      t := Strtok(t.rest, " ");
    }
  }

  method HandleLine(slots: seq<Slot>, s: int, line: string) returns (call: Option<Callback>)
    ensures call == Handled(slots, s, line)
  {
    hide Strtok, CStr, ParseTokens;
    var command := Strtok(CStr(line), " \r\n");
    if command.NoToken? || command.text != "MSG" {
      return None;
    }
    var topic := Strtok(command.rest, " \r\n");
    if topic.NoToken? {
      return None;
    }
    var data := Strtok(topic.rest, "\r\n");
    if data.NoToken? {
      return None;
    }
    if s < 0 || s >= |slots| || !slots[s].used {
      return None;
    }
    var slot := slots[s];
    if topic.text != slot.topic || !slot.hasCallback {
      return None;
    }
    if slot.state == "" && slot.kind == "" && slot.key == "" {
      return Some(Callback(topic.text, data.text));
    }
    var p := ScanFields(LR.Cut(data.text));
    if slot.state != "" && (p.state.None? || p.state.value != slot.state) {
      return None;
    }
    if slot.kind != "" && (p.kind.None? || p.kind.value != slot.kind) {
      return None;
    }
    if slot.key != "" && (p.key.None? || p.key.value != slot.key) {
      return None;
    }
    if slot.key != "" {
      return Some(Callback(topic.text, ValueText(p)));
    }
    return Some(Callback(topic.text, data.text));
  }

  // ---- round trip ----

  predicate FieldFree(field: Option<string>, chars: string) {
    field.Some? ==> Free(field.value, chars)
  }

  predicate FieldsFree(f: Fields, chars: string) {
    FieldFree(f.state, chars) && FieldFree(f.kind, chars) && FieldFree(f.key, chars) && FieldFree(f.value, chars)
  }

  predicate Clean(f: Fields) { FieldsFree(f, " \r\n\0") }

  predicate CleanTopic(topic: string) {
    |topic| > 0 && Free(topic, " \r\n\0")
  }

  function Join(parts: seq<string>): string {
    if |parts| == 0 then "" else if |parts| == 1 then parts[0] else parts[0] + " " + Join(parts[1..])
  }

  function AssignAll(p: Fields, parts: seq<string>): Fields
    decreases |parts|
  {
    if |parts| == 0 then p else AssignAll(Assign(p, parts[0]), parts[1..])
  }

  lemma {:induction false} ParseJoin(p: Fields, parts: seq<string>)
    requires forall i :: 0 <= i < |parts| ==> |parts[i]| > 0 && Free(parts[i], " ")
    ensures ParseTokens(p, Join(parts)) == AssignAll(p, parts)
    decreases |parts|
  {
    hide Strtok, Assign;
    if |parts| == 0 {
      StrtokNothing(" ");
    } else {
      StrtokNothing(" ");
      StrtokWord(parts[0], ' ', Join(parts[1..]), " ");
      ParseJoin(Assign(p, parts[0]), parts[1..]);
    }
  }

  lemma StrtokNothing(delims: string)
    ensures Strtok("", delims) == NoToken
  {}

  function Part(tag: string, field: Option<string>): seq<string> {
    if field.Some? then [tag + field.value] else []
  }

  function Parts(f: Fields): seq<string> {
    Part("state=", f.state) + Part("type=", f.kind) + Part("key=", f.key) + Part("value=", f.value)
  }

  lemma {:induction false} JoinAppend(parts: seq<string>, last: string)
    ensures Join(parts + [last]) == if |parts| == 0 then last else Join(parts) + " " + last
  {
    if |parts| == 0 {
    } else {
      assert (parts + [last])[1..] == parts[1..] + [last];
      JoinAppend(parts[1..], last);
      if |parts| > 1 {
        assert parts[0] + " " + (Join(parts[1..]) + " " + last) == parts[0] + " " + Join(parts[1..]) + " " + last;
      }
    }
  }

  lemma {:induction false} JoinNonempty(parts: seq<string>)
    requires |parts| > 0 && |parts[0]| > 0
    ensures |Join(parts)| > 0
  {
  }

  lemma AddIsJoin(parts: seq<string>, tag: string, field: Option<string>)
    requires |tag| > 0 && (|parts| > 0 ==> |parts[0]| > 0)
    ensures Add(Join(parts), tag, field) == Join(parts + Part(tag, field))
    ensures |parts + Part(tag, field)| > 0 ==> |(parts + Part(tag, field))[0]| > 0
  {
    if field.None? {
      assert parts + Part(tag, field) == parts;
    } else {
      JoinAppend(parts, tag + field.value);
      if |parts| > 0 {
        JoinNonempty(parts);
        assert Join(parts) + " " + (tag + field.value) == Join(parts) + " " + tag + field.value;
      }
    }
  }

  /** With a label present the data text is the labelled fields separated by single spaces. */
  lemma DataIsJoin(f: Fields)
    requires Labelled(f)
    ensures Data(f) == Join(Parts(f)) && |Data(f)| > 0
  {
    hide Join, Add;
    var p0: seq<string> := [];
    var p1 := p0 + Part("state=", f.state);
    var p2 := p1 + Part("type=", f.kind);
    var p3 := p2 + Part("key=", f.key);
    JoinNone();
    AddIsJoin(p0, "state=", f.state);
    AddIsJoin(p1, "type=", f.kind);
    AddIsJoin(p2, "key=", f.key);
    JoinNonempty(p3);
    if f.value.Some? {
      JoinAppend(p3, "value=" + f.value.value);
      assert Join(p3) + " " + ("value=" + f.value.value) == Join(p3) + " value=" + f.value.value;
    } else {
      assert p3 + Part("value=", f.value) == p3;
    }
    assert p0 + Part("state=", f.state) == Part("state=", f.state);
  }

  function Piece(tag: string, field: Option<string>): string {
    if field.Some? then " " + tag + field.value else ""
  }

  /** The data text in full: with any label, the present fields in the order state, type, key, value, each
      with its label and separated by single spaces; without, the bare value. */
  lemma DataText(f: Fields)
    ensures Labelled(f) ==> " " + Data(f) == Piece("state=", f.state) + Piece("type=", f.kind) + Piece("key=", f.key)
                                             + Piece("value=", f.value)
    ensures !Labelled(f) ==> Data(f) == if f.value.Some? then f.value.value else ""
  {
    if Labelled(f) {
      hide Add, Piece, Spaced;
      var d1 := Add("", "state=", f.state);
      var d2 := Add(d1, "type=", f.kind);
      var d3 := Add(d2, "key=", f.key);
      var a1 := "" + Piece("state=", f.state);
      ValueAdded(f);
      AddPiece("", "", "state=", f.state);
      AddPiece(d1, a1, "type=", f.kind);
      AddPiece(d2, a1 + Piece("type=", f.kind), "key=", f.key);
      AddPiece(d3, a1 + Piece("type=", f.kind) + Piece("key=", f.key), "value=", f.value);
      assert "" + Piece("state=", f.state) == Piece("state=", f.state);
      SpacedNonempty(Data(f), a1 + Piece("type=", f.kind) + Piece("key=", f.key) + Piece("value=", f.value));
    }
  }

  /** acc is data with a space in front, or both are empty. */
  predicate Spaced(data: string, acc: string) {
    if |data| == 0 then acc == "" else " " + data == acc
  }

  lemma SpacedNonempty(data: string, acc: string)
    requires Spaced(data, acc) && |data| > 0
    ensures " " + data == acc
  {}

  lemma ValueAdded(f: Fields)
    requires Labelled(f)
    ensures Data(f) == Add(Add(Add(Add("", "state=", f.state), "type=", f.kind), "key=", f.key), "value=", f.value)
    ensures |Data(f)| > 0 && Spaced("", "")
  {
    var d := Add(Add(Add("", "state=", f.state), "type=", f.kind), "key=", f.key);
    assert |d| > 0;
    if f.value.Some? { assert d + " value=" + f.value.value == d + " " + "value=" + f.value.value; }
  }

  lemma AddPiece(data: string, acc: string, tag: string, field: Option<string>)
    requires |tag| > 0 && Spaced(data, acc)
    ensures Spaced(Add(data, tag, field), acc + Piece(tag, field))
  {
    if field.None? {
      assert acc + Piece(tag, field) == acc;
    } else if |data| == 0 {
      assert " " + (tag + field.value) == acc + Piece(tag, field);
    } else {
      assert " " + (data + " " + tag + field.value) == " " + data + (" " + tag + field.value);
    }
  }

  lemma JoinNone()
    ensures Join([]) == ""
  {}

  lemma PartFree(tag: string, field: Option<string>, chars: string)
    requires |tag| > 0 && Free(tag, chars) && (field.Some? ==> Free(field.value, chars))
    ensures forall i :: 0 <= i < |Part(tag, field)| ==>
              |Part(tag, field)[i]| > 0 && Free(Part(tag, field)[i], chars)
  {}

  lemma PartsAssigned(f: Fields)
    ensures AssignAll(NO_FIELDS, Parts(f)) == f
  {
    var a, b, c, d := Part("state=", f.state), Part("type=", f.kind), Part("key=", f.key), Part("value=", f.value);
    var q1 := NO_FIELDS.(state := f.state);
    var q2 := q1.(kind := f.kind);
    var q3 := q2.(key := f.key);
    AssignPart(NO_FIELDS, "state=", f.state, b + c + d);
    AssignPart(q1, "type=", f.kind, c + d);
    AssignPart(q2, "key=", f.key, d);
    AssignPart(q3, "value=", f.value, []);
    assert a + (b + c + d) == Parts(f) && b + (c + d) == b + c + d && d + [] == d;
  }

  function Put(p: Fields, tag: string, field: Option<string>): Fields {
    if field.None? then p else Assign(p, tag + field.value)
  }

  lemma AssignPart(p: Fields, tag: string, field: Option<string>, more: seq<string>)
    ensures AssignAll(p, Part(tag, field) + more) == AssignAll(Put(p, tag, field), more)
    ensures tag == "state=" ==> Put(p, tag, field) == if field.Some? then p.(state := field) else p
    ensures tag == "type=" ==> Put(p, tag, field) == if field.Some? then p.(kind := field) else p
    ensures tag == "key=" ==> Put(p, tag, field) == if field.Some? then p.(key := field) else p
    ensures tag == "value=" ==> Put(p, tag, field) == if field.Some? then p.(value := field) else p
  {
    if field.None? {
      assert Part(tag, field) + more == more;
    } else {
      var t := tag + field.value;
      assert ([t] + more)[1..] == more;
      assert t[|tag|..] == field.value;
      assert |t| > 0 && |tag| > 0 ==> t[0] == tag[0];
    }
  }

  lemma {:induction false} JoinFree(parts: seq<string>, chars: string)
    requires ' ' !in chars && forall i :: 0 <= i < |parts| ==> Free(parts[i], chars)
    ensures Free(Join(parts), chars)
  {
    if |parts| > 1 { JoinFree(parts[1..], chars); }
  }

  lemma PartsFree(f: Fields, chars: string)
    requires Free("state=type=key=value=", chars) && FieldsFree(f, chars)
    ensures forall i :: 0 <= i < |Parts(f)| ==> |Parts(f)[i]| > 0 && Free(Parts(f)[i], chars)
  {
    var all := "state=type=key=value=";
    assert "state=" == all[..6] && "type=" == all[6..11] && "key=" == all[11..15] && "value=" == all[15..];
    PartFree("state=", f.state, chars);
    PartFree("type=", f.kind, chars);
    PartFree("key=", f.key, chars);
    PartFree("value=", f.value, chars);
  }

  lemma FewerChars(f: Fields, chars: string, fewer: string)
    requires FieldsFree(f, chars) && forall c :: c in fewer ==> c in chars
    ensures FieldsFree(f, fewer)
  {}

  /** Parsing the data text gives back exactly the published fields. */
  lemma ParseData(f: Fields)
    requires Labelled(f) && Clean(f)
    ensures ParseTokens(NO_FIELDS, Data(f)) == f
  {
    FewerChars(f, " \r\n\0", " ");
    PartsFree(f, " ");
    DataIsJoin(f);
    ParseJoin(NO_FIELDS, Parts(f));
    PartsAssigned(f);
  }

  lemma DataFree(f: Fields)
    requires Labelled(f) && Clean(f)
    ensures Free(Data(f), "\r\n\0") && |Data(f)| > 0
  {
    FewerChars(f, " \r\n\0", "\r\n\0");
    PartsFree(f, "\r\n\0");
    DataIsJoin(f);
    JoinFree(Parts(f), "\r\n\0");
  }

  /** The three strtok calls split a line into command, topic and data. */
  lemma LineTokens(topic: string, data: string)
    requires CleanTopic(topic) && |data| > 0 && Free(data, "\r\n\0")
    ensures Strtok(CStr("MSG " + topic + " " + data + "\n"), " \r\n") == Token("MSG", topic + " " + data + "\n")
    ensures Strtok(topic + " " + data + "\n", " \r\n") == Token(topic, data + "\n")
    ensures Strtok(data + "\n", "\r\n") == Token(data, "")
  {
    hide Strtok, CStr;
    var line := "MSG " + topic + " " + data + "\n";
    CStrClean(line);
    assert line == "MSG" + [' '] + (topic + " " + data + "\n");
    StrtokWord("MSG", ' ', topic + " " + data + "\n", " \r\n");
    assert topic + " " + data + "\n" == topic + [' '] + (data + "\n");
    StrtokWord(topic, ' ', data + "\n", " \r\n");
    StrtokWord(data, '\n', "", "\r\n");
    assert data + ['\n'] + "" == data + "\n";
  }

  lemma HandledLine(slots: seq<Slot>, s: int, topic: string, data: string)
    requires CleanTopic(topic) && |data| > 0 && Free(data, "\r\n\0")
    ensures Handled(slots, s, "MSG " + topic + " " + data + "\n") == Deliver(slots, s, topic, data)
  {
    LineTokens(topic, data);
    hide Strtok, CStr, Deliver, CleanTopic, Free;
  }

  /** What a subscriber should see of a published message: nothing unless the topic is its own and every
      filter it set is the published field; then the value if it asked for a key, the data text otherwise. */
  function Expected(slots: seq<Slot>, s: int, topic: string, f: Fields): Option<Callback> {
    if !(0 <= s < |slots| && slots[s].used && slots[s].hasCallback && slots[s].topic == topic) then None
    else if (slots[s].state != "" && f.state != Some(slots[s].state))
            || (slots[s].kind != "" && f.kind != Some(slots[s].kind))
            || (slots[s].key != "" && f.key != Some(slots[s].key)) then None
    else if slots[s].key == "" then Some(Callback(topic, Data(f)))
    else Some(Callback(topic, match f.value case None => "" case Some(v) => v))
  }

  /** For every clean message with a label and a line of at most 511 bytes, the subscriber's callback is
      made exactly when topic and filters match, with the published value under a key filter and the
      whole data text otherwise. */
  lemma PublishSubscribe(slots: seq<Slot>, s: int, topic: string, f: Fields)
    requires CleanTopic(topic) && Labelled(f) && Clean(f) && |Line(topic, f)| < LR.LINE_BUF
    ensures Handled(slots, s, Line(topic, f)) == Expected(slots, s, topic, f)
  {
    var data := Data(f);
    DataFree(f);
    HandledLine(slots, s, topic, data);
    ParseData(f);
    assert Line(topic, f) == "MSG " + topic + " " + data + "\n";
    hide Handled, Line, Data, ParseTokens, Clean, CleanTopic, Labelled, Free;
    assert LR.Cut(data) == data;
  }

  // ---- lines of any words ----

  /** The text of the last word that starts with the label. */
  function LastWith(words: seq<string>, tag: string): Option<string> {
    if |words| == 0 then None
    else if LastWith(words[1..], tag).Some? then LastWith(words[1..], tag)
    else if tag <= words[0] then Some(words[0][|tag|..])
    else None
  }

  function Latest(words: seq<string>, tag: string, before: Option<string>): Option<string> {
    if LastWith(words, tag).Some? then LastWith(words, tag) else before
  }

  lemma LatestOfOne(word: string, tag: string, before: Option<string>)
    ensures Latest([word], tag, before) == if tag <= word then Some(word[|tag|..]) else before
  {
    assert [word][1..] == [] && LastWith([], tag) == None;
  }

  /** No word starts with two labels. */
  lemma OneLabel(word: string)
    ensures "state=" <= word ==> !("type=" <= word) && !("key=" <= word) && !("value=" <= word)
    ensures "type=" <= word ==> !("key=" <= word) && !("value=" <= word)
    ensures "key=" <= word ==> !("value=" <= word)
  {
    assert "state="[0] == 's' && "type="[0] == 't' && "key="[0] == 'k' && "value="[0] == 'v';
  }

  lemma AssignOne(p: Fields, word: string)
    ensures Assign(p, word).state == Latest([word], "state=", p.state)
    ensures Assign(p, word).kind == Latest([word], "type=", p.kind)
    ensures Assign(p, word).key == Latest([word], "key=", p.key)
    ensures Assign(p, word).value == Latest([word], "value=", p.value)
  {
    hide Latest;
    OneLabel(word);
    LatestOfOne(word, "state=", p.state);
    LatestOfOne(word, "type=", p.kind);
    LatestOfOne(word, "key=", p.key);
    LatestOfOne(word, "value=", p.value);
  }

  lemma LatestOnFirst(words: seq<string>, tag: string, before: Option<string>)
    requires |words| > 0
    ensures Latest(words[1..], tag, Latest([words[0]], tag, before)) == Latest(words, tag, before)
  {
    LatestOfOne(words[0], tag, before);
  }

  lemma {:induction false} AssignedLast(p: Fields, words: seq<string>)
    ensures AssignAll(p, words) == Fields(Latest(words, "state=", p.state), Latest(words, "type=", p.kind),
                                          Latest(words, "key=", p.key), Latest(words, "value=", p.value))
    decreases |words|
  {
    hide Assign, Latest;
    if |words| == 0 {
      NothingLatest(p);
    } else {
      AssignedLast(Assign(p, words[0]), words[1..]);
      AssignOne(p, words[0]);
      LatestOnFirst(words, "state=", p.state);
      LatestOnFirst(words, "type=", p.kind);
      LatestOnFirst(words, "key=", p.key);
      LatestOnFirst(words, "value=", p.value);
    }
  }

  lemma NothingLatest(p: Fields)
    ensures forall tag, before :: Latest([], tag, before) == before
  {}

  lemma WordsFree(words: seq<string>)
    requires |words| > 0 && forall i :: 0 <= i < |words| ==> |words[i]| > 0 && Free(words[i], " \r\n\0")
    ensures forall i :: 0 <= i < |words| ==> Free(words[i], " ")
    ensures Free(Join(words), "\r\n\0") && |Join(words)| > 0
  {
    assert forall c :: c in " " || c in "\r\n\0" ==> c in " \r\n\0";
    JoinFree(words, "\r\n\0");
    JoinNonempty(words);
  }

  /** A message of any words: the last word with a label counts. Nothing happens unless the topic is the
      subscription's and every filter set reads the same as its labelled word; the callback gets the value
      word under a key filter and the whole text otherwise. */
  lemma WordsDelivered(slots: seq<Slot>, s: int, topic: string, words: seq<string>)
    requires CleanTopic(topic) && |words| > 0 && |Join(words)| < 512
    requires forall i :: 0 <= i < |words| ==> |words[i]| > 0 && Free(words[i], " \r\n\0")
    ensures Handled(slots, s, "MSG " + topic + " " + Join(words) + "\n") ==
            if !(0 <= s < |slots| && slots[s].used && slots[s].hasCallback && slots[s].topic == topic) then None
            else if (slots[s].state != "" && LastWith(words, "state=") != Some(slots[s].state))
                    || (slots[s].kind != "" && LastWith(words, "type=") != Some(slots[s].kind))
                    || (slots[s].key != "" && LastWith(words, "key=") != Some(slots[s].key)) then None
            else if slots[s].key == "" then Some(Callback(topic, Join(words)))
            else Some(Callback(topic, match LastWith(words, "value=") case None => "" case Some(v) => v))
  {
    hide Handled, Join, ParseTokens, CleanTopic, Free, LastWith;
    WordsFree(words);
    HandledLine(slots, s, topic, Join(words));
    ParseJoin(NO_FIELDS, words);
    AssignedLast(NO_FIELDS, words);
    assert LR.Cut(Join(words)) == Join(words);
  }

  lemma {:induction false} TokenFree(s: string, chars: string, delims: string)
    requires Free(s, chars)
    ensures Strtok(s, delims).Token? ==> Free(Strtok(s, delims).text, chars) && Free(Strtok(s, delims).rest, chars)
  {
    SkipFree(s, chars, delims);
  }

  lemma {:induction false} SkipFree(s: string, chars: string, delims: string)
    requires Free(s, chars)
    ensures Free(SkipDelims(s, delims), chars)
  {
    if |s| > 0 { SkipFree(s[1..], chars, delims); }
  }

  lemma {:induction false} NoLabels(p: Fields, s: string)
    requires Free(s, "=")
    ensures ParseTokens(p, s) == p
    decreases |s|
  {
    TokenFree(s, "=", " ");
    hide Strtok;
    match Strtok(s, " ")
    case NoToken =>
    case Token(text, rest) =>
      NotALabel(p, text);
      NoLabels(p, rest);
  }

  lemma NotALabel(p: Fields, token: string)
    requires Free(token, "=")
    ensures Assign(p, token) == p
  {
    assert "="[0] == '=' && '=' in "=";
    assert "state="[5] == '=' && "type="[4] == '=' && "key="[3] == '=' && "value="[5] == '=';
  }

  /** Without any label the value is sent bare. A subscriber without filters receives it as it is, spaces
      included, unless it is empty, in which case the line is dropped; if it has no '=' a subscriber with any
      filter receives nothing. */
  lemma BareValue(slots: seq<Slot>, s: int, topic: string, value: string)
    requires CleanTopic(topic) && Free(value, "\r\n\0")
    requires 0 <= s < |slots| && slots[s].used && slots[s].hasCallback && topic == slots[s].topic
    ensures var call := Handled(slots, s, Line(topic, Fields(None, None, None, Some(value))));
            && (value == "" ==> call == None)
            && (value != "" && slots[s].state == slots[s].kind == slots[s].key == "" ==>
                  call == Some(Callback(topic, value)))
            && (Free(value, "=") && !(slots[s].state == slots[s].kind == slots[s].key == "") ==> call == None)
  {
    assert Data(Fields(None, None, None, Some(value))) == value;
    if value == "" {
      NoData(slots, s, topic);
      assert Line(topic, Fields(None, None, None, Some(value))) == "MSG " + topic + " " + "\n";
    } else {
      HandledLine(slots, s, topic, value);
      if Free(value, "=") {
        assert Free(LR.Cut(value), "=");
        NoLabels(NO_FIELDS, LR.Cut(value));
      }
      hide Handled, ParseTokens, Free;
    }
  }

  /** A line that does not start with MSG is ignored. */
  lemma OtherLineIgnored(slots: seq<Slot>, s: int, word: string, rest: string)
    requires |word| > 0 && Free(word, " \r\n\0") && word != "MSG" && Free(rest, "\0")
    ensures Handled(slots, s, word + " " + rest) == None
  {
    hide Strtok, CStr;
    var line := word + " " + rest;
    assert '\0' in " \r\n\0" && ' ' in " \r\n\0" by { assert " \r\n\0"[3] == '\0' && " \r\n\0"[0] == ' '; }
    assert Free(line, "\0");
    CStrClean(line);
    assert line == word + [' '] + rest;
    StrtokWord(word, ' ', rest, " \r\n");
  }

  lemma NoData(slots: seq<Slot>, s: int, topic: string)
    requires CleanTopic(topic)
    ensures Handled(slots, s, "MSG " + topic + " " + "\n") == None
  {
    hide Deliver;
    var line := "MSG " + topic + " " + "\n";
    CStrClean(line);
    assert line == "MSG" + [' '] + (topic + " " + "\n");
    StrtokWord("MSG", ' ', topic + " " + "\n", " \r\n");
    assert topic + " " + "\n" == topic + [' '] + "\n";
    StrtokWord(topic, ' ', "\n", " \r\n");
  }
}

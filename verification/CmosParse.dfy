/** The second parser of the published text, cmos_parse, which searches for "name=" anywhere. */
module CmosParse {
  import opened Options
  import opened CmosText

  // ---- strstr ----

  predicate Occurs(s: string, pattern: string, at: nat) {
    at <= |s| && pattern <= s[at..]
  }

  /** The lowest occurrence. */
  function Find(s: string, pattern: string, from: nat): (at: Option<nat>)
    requires from <= |s|
    ensures at.Some? ==> from <= at.value && Occurs(s, pattern, at.value)
    ensures at.Some? ==> forall k :: from <= k < at.value ==> !Occurs(s, pattern, k)
    ensures at.None? ==> forall k :: from <= k <= |s| ==> !Occurs(s, pattern, k)
    decreases |s| - from
  {
    if pattern <= s[from..] then Some(from)
    else if from == |s| then None
    else Find(s, pattern, from + 1)
  }

  lemma FindIs(s: string, pattern: string, at: nat)
    requires Occurs(s, pattern, at) && forall k :: 0 <= k < at ==> !Occurs(s, pattern, k)
    ensures Find(s, pattern, 0) == Some(at)
  {}

  // ---- cmos_get_field ----

  predicate Stops(c: char) { c == '\0' || c == ' ' || c == '\r' || c == '\n' }

  /** The characters up to a stop, at most limit of them. */
  function Taken(s: string, limit: nat): string {
    if |s| == 0 || limit == 0 || Stops(s[0]) then "" else [s[0]] + Taken(s[1..], limit - 1)
  }

  /** The longest beginning within the limit that has no space, CR, LF or NUL. */
  lemma {:induction false} TakenMeaning(s: string, limit: nat)
    ensures var t := Taken(s, limit);
            && t <= s && |t| <= limit && (forall i :: 0 <= i < |t| ==> t[i] !in " \r\n\0")
            && (|t| == limit || t == s || s[|t|] in " \r\n\0")
    decreases limit
  {
    hide Stops;
    if |s| > 0 && limit > 0 {
      StopChars(s[0]);
      if !Stops(s[0]) {
        TakenMeaning(s[1..], limit - 1);
        assert s == [s[0]] + s[1..];
      }
    }
  }

  function Pattern(name: string): string {
    (if |name| <= 126 then name else name[..126]) + "="
  }

  /** The text after the first "name=" in s. */
  function After(s: string, name: string): Option<string> {
    match Find(s, Pattern(name), 0)
    case None => None
    case Some(at) => Some(s[at + |Pattern(name)|..])
  }

  function Field(data: string, name: string, size: nat): Option<string>
    requires size >= 1
  {
    if After(data, name).None? then None else Some(Taken(After(data, name).value, size - 1))
  }

  method SearchString(name: string) returns (search: string)
    ensures search == Pattern(name)
  {
    search := "";
    while |search| < |name| && |search| < 126
      invariant |search| <= |name| && |search| <= 126 && search == name[..|search|]
      decreases |name| - |search|
    {
      search := search + [name[|search|]];
    }
    search := search + "=";
  }

  lemma TakenNext(data: string, p: nat, limit: nat)
    requires p <= |data|
    ensures Taken(data[p..], limit) ==
            if p == |data| || limit == 0 || Stops(data[p]) then "" else [data[p]] + Taken(data[p + 1..], limit - 1)
  {
    hide Stops;
    if p < |data| { assert data[p..][0] == data[p] && data[p..][1..] == data[p + 1..]; }
  }

  method GetField(data: string, name: string, size: nat) returns (found: bool, out: string)
    requires size >= 1
    ensures found == Field(data, name, size).Some?
    ensures out == if found then Field(data, name, size).value else ""
  {
    hide Pattern, Find, Stops, Taken;
    var search := SearchString(name);
    var at := Find(data, search, 0);
    if at.None? {
      return false, "";
    }
    OccursAt(data, search, at.value, 0);
    var p := at.value + |search|;
    ghost var text := data[p..];
    out := "";
    while p < |data| && !Stops(data[p]) && |out| < size - 1
      invariant p <= |data| && |out| <= size - 1
      invariant Taken(text, size - 1) == out + Taken(data[p..], size - 1 - |out|)
      decreases |data| - p
    {
      TakenNext(data, p, size - 1 - |out|);
      out := out + [data[p]];
      p := p + 1;
    }
    TakenNext(data, p, size - 1 - |out|);
    return true, out;
  }

  lemma TakenFits(data: string, name: string, size: nat)
    requires size >= 1
    ensures Field(data, name, size).Some? ==> |Field(data, name, size).value| < size
  {
    if After(data, name).Some? { TakenMeaning(After(data, name).value, size - 1); }
  }

  const NAME_SIZE := 64
  const VALUE_SIZE := 256

  datatype Parsed = Parsed(kind: string, key: string, value: string)

  /** Returns false, the error code of cmos_parse, when there is no type. */
  method Parse(data: string) returns (ok: bool, msg: Parsed)
    ensures msg == ParsedBy(data) && ok == (msg.kind != "")
    ensures |msg.kind| <= 63 && |msg.key| <= 63 && |msg.value| <= 255
  {
    TakenFits(data, "type", NAME_SIZE);
    TakenFits(data, "key", NAME_SIZE);
    TakenFits(data, "value", VALUE_SIZE);
    hide Field;
    var found, kind := GetField(data, "type", NAME_SIZE);
    var key, value;
    found, key := GetField(data, "key", NAME_SIZE);
    found, value := GetField(data, "value", VALUE_SIZE);
    return kind != "", Parsed(kind, key, value);
  }

  function FieldOr(data: string, name: string, size: nat): string
    requires size >= 1
  {
    if Field(data, name, size).Some? then Field(data, name, size).value else ""
  }

  function ParsedBy(data: string): Parsed {
    Parsed(FieldOr(data, "type", NAME_SIZE), FieldOr(data, "key", NAME_SIZE), FieldOr(data, "value", VALUE_SIZE))
  }

  // ---- a search word by word ----

  lemma {:induction false} TakenWord(word: string, rest: string, limit: nat)
    requires Free(word, " \r\n\0") && (rest == "" || Stops(rest[0]))
    ensures Taken(word + rest, limit) == if |word| <= limit then word else word[..limit]
  {
    hide Free, Stops;
    if |word| == 0 {
      assert word + rest == rest;
    } else if limit > 0 {
      var tail := word[1..];
      WordStart(word);
      assert (word + rest)[1..] == tail + rest && (word + rest)[0] == word[0];
      TakenWord(tail, rest, limit - 1);
      assert Taken(word + rest, limit) == [word[0]] + Taken(tail + rest, limit - 1);
      assert word == [word[0]] + tail;
      if |word| > limit { assert word[..limit] == [word[0]] + tail[..limit - 1]; }
    }
  }

  lemma WordStart(word: string)
    requires Free(word, " \r\n\0") && |word| > 0
    ensures !Stops(word[0]) && Free(word[1..], " \r\n\0")
  {
    StopChars(word[0]);
  }

  lemma StopChars(c: char)
    ensures Stops(c) <==> c in " \r\n\0"
  {
    var stops := " \r\n\0";
    assert stops[0] == ' ' && stops[1] == '\r' && stops[2] == '\n' && stops[3] == '\0';
  }

  function Shortened(s: string, size: nat): string
    requires size >= 1
  {
    if |s| <= size - 1 then s else s[..size - 1]
  }

  lemma OccursLeft(a: string, b: string, pattern: string, k: nat)
    requires k + |pattern| <= |a|
    ensures Occurs(a + b, pattern, k) <==> Occurs(a, pattern, k)
  {
    assert (a + b)[k..][..|pattern|] == a[k..][..|pattern|];
  }

  lemma OccursRight(a: string, b: string, pattern: string, k: nat)
    ensures Occurs(a + b, pattern, |a| + k) <==> Occurs(b, pattern, k)
  {
    if k <= |b| { assert (a + b)[|a| + k..] == b[k..]; }
  }

  lemma FindWithin(a: string, b: string, pattern: string)
    requires Find(a, pattern, 0).Some?
    ensures Find(a + b, pattern, 0) == Find(a, pattern, 0)
  {
    var at := Find(a, pattern, 0).value;
    hide Find;
    OccursLeft(a, b, pattern, at);
    forall k | 0 <= k < at ensures !Occurs(a + b, pattern, k) { OccursLeft(a, b, pattern, k); }
    FindIs(a + b, pattern, at);
  }

  lemma FindBeyond(a: string, b: string, pattern: string)
    requires forall k :: 0 <= k < |a| ==> !Occurs(a + b, pattern, k)
    ensures Find(a + b, pattern, 0) ==
            if Find(b, pattern, 0).Some? then Some(|a| + Find(b, pattern, 0).value) else None
  {
    hide Find;
    forall k | |a| <= k <= |a + b| ensures Occurs(a + b, pattern, k) <==> Occurs(b, pattern, k - |a|) {
      OccursRight(a, b, pattern, k - |a|);
    }
    if Find(b, pattern, 0).Some? {
      FindIs(a + b, pattern, |a| + Find(b, pattern, 0).value);
    }
  }

  lemma OccursAt(s: string, pattern: string, at: nat, i: nat)
    requires Occurs(s, pattern, at)
    ensures at + |pattern| <= |s|
    ensures i < |pattern| ==> s[at + i] == pattern[i]
  {
    if i < |pattern| { assert s[at..][i] == pattern[i]; }
  }

  /** A pattern without a space is never found across one. */
  lemma NoStraddle(word: string, rest: string, pattern: string, k: nat)
    requires Free(pattern, " ") && k <= |word| && |pattern| > 0
    requires Occurs(word + " " + rest, pattern, k)
    ensures k + |pattern| <= |word|
  {
    hide Occurs;
    var s := word + " " + rest;
    assert s[|word|] == " "[0] && s[|word|] in " ";
    if k + |pattern| > |word| {
      OccursAt(s, pattern, k, |word| - k);
    }
  }

  lemma NotAcross(word: string, rest: string, pattern: string)
    requires Free(pattern, " ") && |pattern| > 0 && Find(word, pattern, 0).None?
    ensures forall k :: 0 <= k <= |word| ==> !Occurs(word + " " + rest, pattern, k)
  {
    hide Find, Occurs;
    forall k | 0 <= k <= |word| ensures !Occurs(word + " " + rest, pattern, k) {
      if Occurs(word + " " + rest, pattern, k) {
        NoStraddle(word, rest, pattern, k);
        assert word + " " + rest == word + (" " + rest);
        OccursLeft(word, " " + rest, pattern, k);
      }
    }
  }

  /** If nothing is found from before b on, what follows a find is what follows it in b. */
  lemma AfterBeyond(a: string, b: string, name: string)
    requires forall k :: 0 <= k < |a| ==> !Occurs(a + b, Pattern(name), k)
    ensures After(a + b, name) == After(b, name)
  {
    var p := Pattern(name);
    hide Pattern, Occurs;
    FindBeyond(a, b, p);
    hide Find;
    if Find(b, p, 0).Some? {
      var at := Find(b, p, 0).value;
      OccursAt(b, p, at, 0);
      assert (a + b)[|a| + at + |p|..] == b[at + |p|..];
    }
  }

  lemma SkipWord(word: string, rest: string, name: string)
    requires Free(Pattern(name), " ") && After(word, name).None?
    ensures After(word + " " + rest, name) == After(rest, name)
  {
    assert |Pattern(name)| > 0;
    hide Find, Pattern, Occurs;
    NotAcross(word, rest, Pattern(name));
    AfterBeyond(word + " ", rest, name);
  }

  lemma FreeSuffix(s: string, chars: string, n: nat)
    requires Free(s, chars) && n <= |s|
    ensures Free(s[n..], chars)
  {}

  lemma AfterInWord(word: string, rest: string, name: string)
    requires After(word, name).Some? && Free(word, " \r\n\0")
    ensures After(word + rest, name) == Some(After(word, name).value + rest)
    ensures Free(After(word, name).value, " \r\n\0")
  {
    var p := Pattern(name);
    FindWithin(word, rest, p);
    hide Find, Pattern, Free, Occurs;
    var at := Find(word, p, 0).value;
    OccursAt(word, p, at, 0);
    assert (word + rest)[at + |p|..] == word[at + |p|..] + rest;
    FreeSuffix(word, " \r\n\0", at + |p|);
  }

  lemma SpaceStops(rest: string)
    ensures Stops((" " + rest)[0])
  {}

  /** The search takes the first word that has the pattern, and from it what follows the pattern. */
  lemma FieldOfWords(word: string, rest: string, name: string, size: nat)
    requires size >= 1 && Free(Pattern(name), " ") && Free(word, " \r\n\0")
    ensures Field(word + " " + rest, name, size) ==
            if After(word, name).Some? then Some(Shortened(After(word, name).value, size))
            else Field(rest, name, size)
    ensures Field(word, name, size) ==
            if After(word, name).Some? then Some(Shortened(After(word, name).value, size)) else None
  {
    hide After, Pattern, Free, Stops, Taken;
    if After(word, name).None? {
      SkipWord(word, rest, name);
    } else {
      var text := After(word, name).value;
      AfterInWord(word, " " + rest, name);
      assert word + " " + rest == word + (" " + rest);
      SpaceStops(rest);
      TakenWord(text, " " + rest, size - 1);
      TakenWord(text, "", size - 1);
      assert text + "" == text;
    }
  }

  // ---- labels ----

  predicate IsLabel(name: string) { name == "state" || name == "type" || name == "key" || name == "value" }

  lemma LabelFacts(name: string)
    requires IsLabel(name)
    ensures 2 <= |name| <= 126 && Pattern(name) == name + "="
    ensures forall i :: 0 <= i < |name| ==> name[i] != '=' && name[i] != ' '
    ensures Free(Pattern(name), " ")
  {
    var p := name + "=";
    assert forall i :: 0 <= i < |p| ==> p[i] == if i < |name| then name[i] else '=';
  }

  /** No two labels end in the same two letters. */
  lemma TailsDiffer(name: string, other: string)
    requires IsLabel(name) && IsLabel(other) && name != other
    ensures 2 <= |name| && 2 <= |other|
    ensures name[|name| - 2] != other[|other| - 2] || name[|name| - 1] != other[|other| - 1]
  {}

  /** The pattern of a label is never found in another label, nor across the end of one. */
  lemma NotInLabel(tag: string, word: string, name: string, k: nat)
    requires IsLabel(tag) && IsLabel(name) && tag != name && k <= |tag|
    ensures !Occurs(tag + "=" + word, Pattern(name), k)
  {
    LabelFacts(tag);
    LabelFacts(name);
    TailsDiffer(tag, name);
    hide IsLabel, Pattern, Occurs;
    var s, p, m := tag + "=" + word, Pattern(name), |name|;
    assert forall i :: 0 <= i <= |tag| ==> s[i] == if i < |tag| then tag[i] else '=';
    if Occurs(s, p, k) {
      OccursAt(s, p, k, m);
      if k + m > |tag| {
        OccursAt(s, p, k, |tag| - k);
      } else if k + m == |tag| {
        OccursAt(s, p, k, m - 1);
        OccursAt(s, p, k, m - 2);
      }
    }
  }

  lemma AfterOwnLabel(name: string, word: string)
    requires |name| <= 126
    ensures After(name + "=" + word, name) == Some(word)
  {
    var s, p := name + "=" + word, Pattern(name);
    assert s[0..] == p + word && s[|p|..] == word;
    FindIs(s, p, 0);
  }

  /** In a labelled field the search finds the label itself, or what it finds in the field's text. */
  lemma AfterLabel(tag: string, word: string, name: string)
    requires IsLabel(tag) && IsLabel(name)
    ensures After(tag + "=" + word, name) == if tag == name then Some(word) else After(word, name)
  {
    LabelFacts(name);
    hide After, IsLabel, Pattern, Occurs;
    if tag == name {
      AfterOwnLabel(name, word);
    } else {
      forall k | 0 <= k <= |tag| ensures !Occurs(tag + "=" + word, Pattern(name), k) {
        NotInLabel(tag, word, name, k);
      }
      AfterBeyond(tag + "=", word, name);
    }
  }

  // ---- the published text ----

  datatype Label = Label(name: string, field: Option<string>)

  function Labels(f: Fields): seq<Label> {
    [Label("state", f.state), Label("type", f.kind), Label("key", f.key), Label("value", f.value)]
  }

  function Tokens(labels: seq<Label>): seq<string> {
    if |labels| == 0 then [] else Part(labels[0].name + "=", labels[0].field) + Tokens(labels[1..])
  }

  /** What the search takes for name: the first labelled field that is it or has "name=" inside. */
  function Seen(labels: seq<Label>, name: string): Option<string> {
    if |labels| == 0 then None
    else if labels[0].field.None? then Seen(labels[1..], name)
    else if labels[0].name == name then labels[0].field
    else if After(labels[0].field.value, name).Some? then After(labels[0].field.value, name)
    else Seen(labels[1..], name)
  }

  function Short(text: Option<string>, size: nat): Option<string>
    requires size >= 1
  {
    if text.None? then None else Some(Shortened(text.value, size))
  }

  lemma FieldOfNothing(name: string, size: nat)
    requires size >= 1
    ensures Field("", name, size) == None
  {}

  lemma {:induction false} SearchTokens(labels: seq<Label>, name: string, size: nat)
    requires size >= 1 && IsLabel(name)
    requires forall i :: 0 <= i < |labels| ==> IsLabel(labels[i].name) && FieldFree(labels[i].field, " \r\n\0")
    ensures Field(Join(Tokens(labels)), name, size) == Short(Seen(labels, name), size)
    decreases |labels|
  {
    hide Field, After, Shortened;
    FieldOfNothing(name, size);
    if |labels| > 0 {
      SearchTokens(labels[1..], name, size);
      var l, rest := labels[0], Tokens(labels[1..]);
      if l.field.None? {
        assert Tokens(labels) == rest;
      } else {
        var token := l.name + "=" + l.field.value;
        assert Tokens(labels) == [token] + rest && ([token] + rest)[1..] == rest;
        LabelFacts(name);
        AfterLabel(l.name, l.field.value, name);
        TokenFree(l.name, l.field.value);
        FieldOfWords(token, Join(rest), name, size);
      }
    }
  }

  lemma TokenFree(tag: string, word: string)
    requires IsLabel(tag) && Free(word, " \r\n\0")
    ensures Free(tag + "=" + word, " \r\n\0")
  {
    var s := tag + "=" + word;
    LabelStops(tag);
    forall i | 0 <= i < |s| ensures s[i] !in " \r\n\0" {
      if i > |tag| { assert s[i] == word[i - |tag| - 1]; }
    }
  }

  lemma LabelStops(tag: string)
    requires IsLabel(tag)
    ensures '=' !in " \r\n\0" && forall i :: 0 <= i < |tag| ==> tag[i] !in " \r\n\0"
  {
    forall c: char ensures c in " \r\n\0" <==> Stops(c) { StopChars(c); }
  }

  lemma TokensOfFour(a: Label, b: Label, c: Label, d: Label)
    ensures Tokens([a, b, c, d]) == Part(a.name + "=", a.field) + Part(b.name + "=", b.field)
                                    + Part(c.name + "=", c.field) + Part(d.name + "=", d.field)
  {
    hide Part;
    assert [a, b, c, d][1..] == [b, c, d] && [b, c, d][1..] == [c, d] && [c, d][1..] == [d] && [d][1..] == [];
    assert Tokens([d]) == Part(d.name + "=", d.field) + Tokens([]);
    assert Tokens([c, d]) == Part(c.name + "=", c.field) + Tokens([d]);
    assert Tokens([b, c, d]) == Part(b.name + "=", b.field) + Tokens([c, d]);
  }

  lemma TokensAreParts(f: Fields)
    ensures Tokens(Labels(f)) == Parts(f)
  {
    hide Part, Tokens;
    TokensOfFour(Label("state", f.state), Label("type", f.kind), Label("key", f.key), Label("value", f.value));
    assert "state" + "=" == "state=" && "type" + "=" == "type=" && "key" + "=" == "key=" && "value" + "=" == "value=";
  }

  // ---- agreement with the token parser ----

  /** The text after the first "name=" in the first of these fields that has one. */
  function Hit(fields: seq<Option<string>>, name: string): Option<string> {
    if |fields| == 0 then None
    else if fields[0].Some? && After(fields[0].value, name).Some? then After(fields[0].value, name)
    else Hit(fields[1..], name)
  }

  /** What hides a field from the search: "name=" in the text of a field before it, or of any field if it
      is not published. */
  function KindMask(f: Fields): Option<string> {
    Hit(if f.kind.Some? then [f.state] else [f.state, f.key, f.value], "type")
  }

  function KeyMask(f: Fields): Option<string> {
    Hit(if f.key.Some? then [f.state, f.kind] else [f.state, f.kind, f.value], "key")
  }

  function ValueMask(f: Fields): Option<string> { Hit([f.state, f.kind, f.key], "value") }

  function Text(field: Option<string>): string { if field.Some? then field.value else "" }

  /** The search finds the mask if there is one and the field otherwise. */
  function Found(mask: Option<string>, field: Option<string>, size: nat): string
    requires size >= 1
  {
    Shortened(Text(Or(mask, field)), size)
  }

  lemma HitOfThree(a: Option<string>, b: Option<string>, c: Option<string>, name: string)
    ensures Hit([a], name) == Sought(a, name)
    ensures Hit([a, b], name) == Or(Sought(a, name), Sought(b, name))
    ensures Hit([a, b, c], name) == Or(Or(Sought(a, name), Sought(b, name)), Sought(c, name))
  {
    hide After;
    assert [a, b, c][1..] == [b, c] && [a, b][1..] == [b] && [b, c][1..] == [c];
    assert [a][1..] == [] && [b][1..] == [] && [c][1..] == [];
    assert Hit([b], name) == Sought(b, name) && Hit([c], name) == Sought(c, name);
  }

  function Or(a: Option<string>, b: Option<string>): Option<string> { if a.Some? then a else b }

  function Sought(field: Option<string>, name: string): Option<string> {
    if field.Some? then After(field.value, name) else None
  }

  function SeenIn(l: Label, name: string): Option<string> {
    if l.name == name then l.field else Sought(l.field, name)
  }

  lemma SeenOfFour(a: Label, b: Label, c: Label, d: Label, name: string)
    ensures Seen([a, b, c, d], name) ==
            Or(Or(Or(SeenIn(a, name), SeenIn(b, name)), SeenIn(c, name)), SeenIn(d, name))
  {
    hide After;
    assert [a, b, c, d][1..] == [b, c, d] && [b, c, d][1..] == [c, d] && [c, d][1..] == [d] && [d][1..] == [];
    assert Seen([d], name) == SeenIn(d, name);
    assert Seen([c, d], name) == Or(SeenIn(c, name), Seen([d], name));
    assert Seen([b, c, d], name) == Or(SeenIn(b, name), Seen([c, d], name));
    assert Seen([a, b, c, d], name) == Or(SeenIn(a, name), Seen([b, c, d], name));
  }

  lemma SeenIs(f: Fields)
    ensures Seen(Labels(f), "type") == Or(KindMask(f), f.kind)
    ensures Seen(Labels(f), "key") == Or(KeyMask(f), f.key)
    ensures Seen(Labels(f), "value") == Or(ValueMask(f), f.value)
  {
    hide After, Seen, Hit, Sought;
    var s, t, k, v := Label("state", f.state), Label("type", f.kind), Label("key", f.key), Label("value", f.value);
    SeenOfFour(s, t, k, v, "type");
    SeenOfFour(s, t, k, v, "key");
    SeenOfFour(s, t, k, v, "value");
    HitOfThree(f.state, f.key, f.value, "type");
    HitOfThree(f.state, f.kind, f.value, "key");
    HitOfThree(f.state, f.kind, f.key, "value");
    SoughtNone();
  }

  lemma SoughtNone()
    ensures forall name :: Sought(None, name) == None
  {}

  /** On published text the second parser finds, for each field, exactly what its mask leaves of it. */
  lemma SearchFinds(f: Fields)
    requires Clean(f) && Labelled(f)
    ensures ParsedBy(Data(f)) == Parsed(Found(KindMask(f), f.kind, NAME_SIZE), Found(KeyMask(f), f.key, NAME_SIZE),
                                        Found(ValueMask(f), f.value, VALUE_SIZE))
  {
    DataIsJoin(f);
    TokensAreParts(f);
    SeenIs(f);
    hide Data, Join, Tokens, Parts, Seen, Field, KindMask, KeyMask, ValueMask;
    SearchTokens(Labels(f), "type", NAME_SIZE);
    SearchTokens(Labels(f), "key", NAME_SIZE);
    SearchTokens(Labels(f), "value", VALUE_SIZE);
  }

  /** The search is not misled: nothing masks the field, or the mask reads the same up to the buffer's end. */
  predicate Unmasked(mask: Option<string>, field: Option<string>, size: nat)
    requires size >= 1
  {
    mask.None? || Shortened(mask.value, size) == Shortened(Text(field), size)
  }

  /** The two parsers agree on a field of published text, up to the buffer's size, if and only if no earlier
      field has "name=" in its text, or what follows there reads the same. */
  lemma ParsersAgreeExactly(f: Fields)
    requires Clean(f) && Labelled(f)
    ensures var tokens, search := ParseTokens(NO_FIELDS, Data(f)), ParsedBy(Data(f));
            && tokens == f
            && (search.kind == Shortened(Text(tokens.kind), NAME_SIZE) <==> Unmasked(KindMask(f), f.kind, NAME_SIZE))
            && (search.key == Shortened(Text(tokens.key), NAME_SIZE) <==> Unmasked(KeyMask(f), f.key, NAME_SIZE))
            && (search.value == Shortened(Text(tokens.value), VALUE_SIZE)
                <==> Unmasked(ValueMask(f), f.value, VALUE_SIZE))
  {
    ParseData(f);
    SearchFinds(f);
    hide Data, ParseTokens, ParsedBy, KindMask, KeyMask, ValueMask, Shortened, Clean;
  }

  lemma NoSignNoHit(s: string, name: string)
    requires Free(s, "=") && IsLabel(name)
    ensures After(s, name) == None
  {
    LabelFacts(name);
    hide IsLabel, Pattern, Occurs;
    assert "="[0] == '=' && '=' in "=";
    if Find(s, Pattern(name), 0).Some? {
      OccursAt(s, Pattern(name), Find(s, Pattern(name), 0).value, |name|);
    }
  }

  lemma NoMasks(f: Fields)
    requires f.kind.Some? && f.key.Some?
    requires FieldFree(f.state, "=") && FieldFree(f.kind, "=") && FieldFree(f.key, "=")
    ensures KindMask(f).None? && KeyMask(f).None? && ValueMask(f).None?
  {
    hide After, Hit;
    forall name, field | IsLabel(name) && FieldFree(field, "=") ensures Sought(field, name) == None {
      if field.Some? { NoSignNoHit(field.value, name); }
    }
    hide Free, Sought, FieldFree;
    HitOfThree(f.state, f.kind, f.key, "type");
    HitOfThree(f.state, f.kind, f.key, "key");
    HitOfThree(f.state, f.kind, f.key, "value");
  }

  /** So they agree whenever state, type and key are free of '='; the value may hold any number of them. */
  lemma ParsersAgree(f: Fields)
    requires Clean(f) && f.kind.Some? && f.key.Some? && f.value.Some?
    requires FieldFree(f.state, "=") && FieldFree(f.kind, "=") && FieldFree(f.key, "=")
    ensures var p := ParseTokens(NO_FIELDS, Data(f));
            p == f && ParsedBy(Data(f)) == Parsed(Shortened(p.kind.value, 64), Shortened(p.key.value, 64),
                                                  Shortened(p.value.value, 256))
  {
    NoMasks(f);
    hide Data, ParseTokens, ParsedBy, KindMask, KeyMask, ValueMask, Shortened, Clean, FieldFree;
    ParsersAgreeExactly(f);
  }

  /** Where they differ: with a state that itself reads type=x, the token parser finds the published type and
      the substring search finds x. */
  lemma EqualsSignConfuses(x: string, f: Fields)
    requires Clean(f) && f.kind.Some? && f.state == Some("type=" + x)
    ensures ParseTokens(NO_FIELDS, Data(f)).kind == f.kind
    ensures ParsedBy(Data(f)).kind == Shortened(x, NAME_SIZE)
  {
    ParseData(f);
    SearchFinds(f);
    AfterLabel("type", x, "type");
    assert "type" + "=" == "type=";
    hide Data, ParseTokens, ParsedBy, After, Clean;
    assert Hit([f.state], "type") == Some(x);
  }
}

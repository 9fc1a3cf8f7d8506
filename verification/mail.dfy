/**
  The e-mail side of secretsanta.go that is pure string work: the raw message
  built by `readInEmailer` and the `%1`/`%2`/`%3` macro substitution of
  `sendAssignment`. Sending (net/smtp) is not part of this model.
*/
module Mail {
  import opened Wrappers
  import opened GoStrings
  import opened People

  /** The four arguments handed to `smtp.PlainAuth`, kept as data. */
  datatype Auth = PlainAuth(identity: string, username: string, password: string, host: string)

  datatype Emailer = Emailer(auth: Auth, server: string, from: string, rawMsg: string)

  const ContentHeader: string := "\r\nContent-Type: text/html\r\n\r\n"

  /** The message text stored by `readInEmailer`: a subject header, an HTML content type, a blank line, the body. */
  function RawMessage(subject: string, body: string): string {
    "Subject: " + subject + ContentHeader + body
  }

  /** Reads a raw message back into its subject and body: the subject runs up to the first carriage return. */
  function ParseRaw(raw: string): Option<(string, string)> {
    if |raw| < 9 || raw[..9] != "Subject: " then None
    else
      var rest := raw[9..];
      var k := IndexOf(rest, '\r');
      if k == -1 || |rest| - k < |ContentHeader| || rest[k..k + |ContentHeader|] != ContentHeader then None
      else Some((rest[..k], rest[k + |ContentHeader|..]))
  }

  /** A subject without a carriage return and any body are recovered from the raw message. */
  lemma RawMessageRoundTrip(subject: string, body: string)
    requires '\r' !in subject
    ensures ParseRaw(RawMessage(subject, body)) == Some((subject, body))
  {
    var raw := RawMessage(subject, body);
    var rest := raw[9..];
    assert rest == subject + ContentHeader + body;
    assert rest[|subject|] == '\r';
    assert rest[..|subject|] == subject;
    assert IndexOf(rest, '\r') == |subject|;
    assert rest[|subject|..|subject| + |ContentHeader|] == ContentHeader;
    assert rest[|subject| + |ContentHeader|..] == body;
  }

  /**
    The text sent to `src` by `sendAssignment`: `%1` becomes the sender's name,
    then `%2` the sender's e-mail address, then `%3` the receiver's name.
  */
  function Message(e: Emailer, src: Person, dest: Person): string {
    ReplaceAll(ReplaceAll(ReplaceAll(e.rawMsg, "%1", src.name), "%2", src.email), "%3", dest.name)
  }

  /** A macro `%d` does not occur in `s` when no `%` of `s` is followed by `d`. */
  lemma MacroAbsent(s: string, d: char)
    requires forall i :: 0 <= i < |s| - 1 ==> s[i] != '%' || s[i + 1] != d
    ensures !Contains(s, ['%', d])
  {
    forall i | 0 <= i <= |s| ensures !OccursAt(s, ['%', d], i) {
      if i + 2 <= |s| { assert s[i..i + 2] == [s[i], s[i + 1]]; }
    }
  }

  /** A message template without any `%` is sent unchanged. */
  lemma MessageWithoutMacros(e: Emailer, src: Person, dest: Person)
    requires '%' !in e.rawMsg
    ensures Message(e, src, dest) == e.rawMsg
  {
    var raw := e.rawMsg;
    MacroAbsent(raw, '1');
    ReplaceAbsent(raw, "%1", src.name);
    MacroAbsent(raw, '2');
    ReplaceAbsent(raw, "%2", src.email);
    MacroAbsent(raw, '3');
    ReplaceAbsent(raw, "%3", dest.name);
  }

  /** Replacing the macro `%d` in `a + "%d" + b`, where `a` has no `%` and `b` has no `%d`. */
  lemma FillOne(a: string, d: char, rep: string, b: string)
    requires '%' !in a
    requires !Contains(b, ['%', d])
    ensures ReplaceAll(a + ['%', d] + b, ['%', d], rep) == a + rep + b
  {
    NoMatchInside(a, ['%', d]);
    ReplaceStep(a, ['%', d], rep, b);
    ReplaceAbsent(b, ['%', d], rep);
  }

  /**
    A message template cut into pieces: text without `%`, a macro `%d` whose
    `d` is not `%`, or a `%` standing alone at the end or just before another
    `%`. Every string has this form (`ParseRender`).
  */
  datatype Piece = Text(text: string) | Macro(key: char) | Lone

  function Show(p: Piece): string {
    match p
    case Text(s) => s
    case Macro(d) => ['%', d]
    case Lone => "%"
  }

  function Render(t: seq<Piece>): string {
    if t == [] then "" else Show(t[0]) + Render(t[1..])
  }

  predicate WellFormed(t: seq<Piece>) {
    forall i :: 0 <= i < |t| ==>
      && (t[i].Text? ==> '%' !in t[i].text)
      && (t[i].Macro? ==> t[i].key != '%')
      && (t[i].Lone? && i + 1 < |t| ==> !t[i + 1].Text?)
  }

  /** No lone `%` stands just before the macro `%d`, as in `%%d`. */
  predicate Clear(t: seq<Piece>, d: char) {
    forall i :: 0 <= i < |t| - 1 && t[i] == Lone ==> t[i + 1] != Macro(d)
  }

  /** Cuts a template into pieces, left to right, as `strings.Replace` reads it. */
  function Parse(s: string): seq<Piece>
    decreases |s|
  {
    if s == [] then []
    else if s[0] != '%' then [Text([s[0]])] + Parse(s[1..])
    else if |s| >= 2 && s[1] != '%' then [Macro(s[1])] + Parse(s[2..])
    else [Lone] + Parse(s[1..])
  }

  /** Every string is the text of a well-formed template, its parse; a parse starts with text exactly when the string does not start with `%`. */
  lemma {:induction false} ParseRender(s: string)
    ensures Render(Parse(s)) == s
    ensures WellFormed(Parse(s))
    ensures s != [] ==> (Parse(s)[0].Text? <==> s[0] != '%')
    decreases |s|
  {
    if s != [] {
      var t := Parse(s);
      var n := if s[0] != '%' || |s| < 2 || s[1] == '%' then 1 else 2;
      var rest := Parse(s[n..]);
      ParseRender(s[n..]);
      assert t == [t[0]] + rest && t[1..] == rest;
      assert Render(t) == Show(t[0]) + s[n..];
      assert s == s[..n] + s[n..];
      forall i | 0 <= i < |t|
        ensures t[i].Text? ==> '%' !in t[i].text
        ensures t[i].Lone? && i + 1 < |t| ==> !t[i + 1].Text?
      {
        if i + 1 < |t| { assert t[i + 1] == rest[i]; }
        if i > 0 { assert t[i] == rest[i - 1]; }
      }
    }
  }

  /** The template with every macro `%d` replaced by the text `v`. */
  function Sub(t: seq<Piece>, d: char, v: string): (r: seq<Piece>)
    ensures |r| == |t|
    ensures forall i :: 0 <= i < |t| ==> r[i] == (if t[i] == Macro(d) then Text(v) else t[i])
  {
    if t == [] then [] else [if t[0] == Macro(d) then Text(v) else t[0]] + Sub(t[1..], d, v)
  }

  /**
    One piece and the text after it: `strings.Replace` of `%d` turns the piece
    into its filled form and carries on after it. A lone `%` is followed only
    by another `%` or by nothing.
  */
  lemma ReplaceHead(p: Piece, next: string, d: char, v: string)
    requires d != '%'
    requires p.Text? ==> '%' !in p.text
    requires p.Macro? ==> p.key != '%'
    requires p.Lone? ==> next == [] || next[0] == '%'
    ensures ReplaceAll(Show(p) + next, ['%', d], v) == Show(if p == Macro(d) then Text(v) else p) + ReplaceAll(next, ['%', d], v)
  {
    var pat := ['%', d];
    var s := Show(p) + next;
    match p
    case Text(a) =>
      ReplaceSkips(a, next, pat, v);
    case Macro(e) =>
      assert s[..2] == ['%', e] && s[2..] == next;
      if e != d {
        assert s[1..] == [e] + next;
        ReplaceSkips([e], next, pat, v);
      }
    case Lone =>
      assert s[1..] == next;
      if next != [] { assert s[..2] == ['%', '%']; }
  }

  /** One `strings.Replace` of the macro `%d` replaces exactly the `%d` pieces of a well-formed template. */
  lemma {:induction false} ReplaceRender(t: seq<Piece>, d: char, v: string)
    requires WellFormed(t) && d != '%'
    ensures ReplaceAll(Render(t), ['%', d], v) == Render(Sub(t, d, v))
    decreases |t|
  {
    if t != [] {
      assert WellFormed(t[1..]) by {
        forall i | 0 <= i < |t| - 1 ensures t[1..][i] == t[i + 1] { }
      }
      ReplaceRender(t[1..], d, v);
      if |t| > 1 {
        assert Render(t[1..]) == Show(t[1]) + Render(t[2..]);
      }
      ReplaceHead(t[0], Render(t[1..]), d, v);
      var r := Sub(t, d, v);
      assert r[1..] == Sub(t[1..], d, v);
    }
  }

  /** Filling a macro with `%`-free text keeps the template well formed, when no lone `%` stood before that macro. */
  lemma SubWellFormed(t: seq<Piece>, d: char, v: string)
    requires WellFormed(t) && Clear(t, d) && '%' !in v
    ensures WellFormed(Sub(t, d, v))
  {
    var r := Sub(t, d, v);
    forall i | 0 <= i < |r| && r[i] == Lone && i + 1 < |r| ensures !r[i + 1].Text? {
      assert t[i] == Lone;
    }
  }

  /** Filling one macro does not put a lone `%` before another. */
  lemma SubClear(t: seq<Piece>, d: char, v: string, d': char)
    requires Clear(t, d') && d != d'
    ensures Clear(Sub(t, d, v), d')
  {
  }

  /** What a piece becomes in the message sent to `src`: `%1`, `%2` and `%3` are the sender's name, the sender's e-mail address and the receiver's name. */
  function Slot(p: Piece, src: Person, dest: Person): string {
    match p
    case Macro(d) =>
      if d == '1' then src.name else if d == '2' then src.email else if d == '3' then dest.name else Show(p)
    case _ => Show(p)
  }

  /** The template with all three macros filled at once. */
  function Filled(t: seq<Piece>, src: Person, dest: Person): string {
    if t == [] then "" else Slot(t[0], src, dest) + Filled(t[1..], src, dest)
  }

  /** Filling `%1`, then `%2`, then `%3` piece by piece fills them all at once. */
  lemma {:induction false} SubsFilled(t: seq<Piece>, src: Person, dest: Person)
    ensures Render(Sub(Sub(Sub(t, '1', src.name), '2', src.email), '3', dest.name)) == Filled(t, src, dest)
    decreases |t|
  {
    if t != [] {
      var r := Sub(Sub(Sub(t, '1', src.name), '2', src.email), '3', dest.name);
      var r' := Sub(Sub(Sub(t[1..], '1', src.name), '2', src.email), '3', dest.name);
      assert r[1..] == r' by {
        forall i | 0 <= i < |r'| ensures r[1..][i] == r'[i] { }
      }
      SubsFilled(t[1..], src, dest);
      assert Show(r[0]) == Slot(t[0], src, dest);
    }
  }

  /**
    Any well-formed template is sent with each macro `%1`, `%2`, `%3` replaced
    by its value and everything else unchanged, wherever and however often the
    macros appear, when the sender's name and e-mail hold no `%` and no lone
    `%` stands just before a `%1` or `%2`.
  */
  lemma MessageFillsSlots(e: Emailer, src: Person, dest: Person, t: seq<Piece>)
    requires Render(t) == e.rawMsg && WellFormed(t)
    requires Clear(t, '1') && Clear(t, '2')
    requires '%' !in src.name && '%' !in src.email
    ensures Message(e, src, dest) == Filled(t, src, dest)
  {
    var t1 := Sub(t, '1', src.name);
    ReplaceRender(t, '1', src.name);
    SubWellFormed(t, '1', src.name);
    SubClear(t, '1', src.name, '2');
    var t2 := Sub(t1, '2', src.email);
    ReplaceRender(t1, '2', src.email);
    SubWellFormed(t1, '2', src.email);
    ReplaceRender(t2, '3', dest.name);
    SubsFilled(t, src, dest);
  }

  /** A string's parse has a lone `%` before `%d` only where the string holds `%%d`. */
  lemma {:induction false} ParseClear(s: string, d: char)
    requires !Contains(s, ['%', '%', d])
    ensures Clear(Parse(s), d)
    decreases |s|
  {
    if s != [] {
      var t := Parse(s);
      var n := if s[0] != '%' || |s| < 2 || s[1] == '%' then 1 else 2;
      assert !Contains(s[n..], ['%', '%', d]) by {
        forall i | 0 <= i <= |s[n..]| && OccursAt(s[n..], ['%', '%', d], i) ensures false {
          assert s[n..][i..i + 3] == s[n + i..n + i + 3];
          assert OccursAt(s, ['%', '%', d], n + i);
        }
      }
      ParseClear(s[n..], d);
      var rest := Parse(s[n..]);
      assert t == [t[0]] + rest;
      if t[0] == Lone && |t| > 1 {
        assert s[1] == '%' && s[1..] != [];
        assert !OccursAt(s, ['%', '%', d], 0);
        if |s| >= 3 { assert s[0..3] == ['%', '%', s[2]]; }
        assert rest[0] != Macro(d);
      }
      forall i | 0 < i < |t| - 1 && t[i] == Lone ensures t[i + 1] != Macro(d) {
        assert t[i] == rest[i - 1] && t[i + 1] == rest[i];
      }
    }
  }

  /**
    The message for any template without `%%1` or `%%2`: the template read
    left to right, with each macro `%1`, `%2`, `%3` replaced by its value.
  */
  lemma MessageFillsTemplate(e: Emailer, src: Person, dest: Person)
    requires !Contains(e.rawMsg, "%%1") && !Contains(e.rawMsg, "%%2")
    requires '%' !in src.name && '%' !in src.email
    ensures Message(e, src, dest) == Filled(Parse(e.rawMsg), src, dest)
  {
    ParseRender(e.rawMsg);
    ParseClear(e.rawMsg, '1');
    ParseClear(e.rawMsg, '2');
    MessageFillsSlots(e, src, dest, Parse(e.rawMsg));
  }

  /**
    The replacements run one after the other over the growing text, so a
    macro inside a value is filled too: with the template `%1` and a sender
    named `%3`, the sender is greeted with the receiver's name.
  */
  lemma MacroCascade(e: Emailer, src: Person, dest: Person)
    requires e.rawMsg == "%1" && src.name == "%3"
    ensures Message(e, src, dest) == dest.name
  {
    MacroAbsent("", '1');
    assert "" + ['%', '1'] + "" == "%1";
    FillOne("", '1', "%3", "");
    assert ReplaceAll("%1", "%1", src.name) == "%3";
    MacroAbsent("%3", '2');
    ReplaceAbsent("%3", "%2", src.email);
    MacroAbsent("", '3');
    assert "" + ['%', '3'] + "" == "%3";
    FillOne("", '3', dest.name, "");
    assert "" + dest.name + "" == dest.name;
  }
}

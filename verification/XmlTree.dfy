/** XML trees: sizing, rendering, and reading the rendered text back (libmx/src/lmx.c). */
module XmlTree {
  import opened Basics
  import opened Xml

  datatype Attr = Attr(name: string, value: Option<string>)

  datatype Node = Tag(name: string, attrs: seq<Attr>, children: seq<Node>) | Cdata(text: string)

  function AttrText(a: Attr): string {
    " " + a.name + "='" + (if a.value.Some? then a.value.value else "") + "'"
  }

  function AttrsText(attrs: seq<Attr>): string {
    if attrs == [] then "" else AttrText(attrs[0]) + AttrsText(attrs[1..])
  }

  /** The text of a tree; a tag without children is closed at once. */
  function Text(x: Node): string
    decreases x, 1
  {
    match x
    case Cdata(text) => Encode(text)
    case Tag(name, attrs, children) =>
      if children == [] then "<" + name + AttrsText(attrs) + "/>"
      else "<" + name + AttrsText(attrs) + ">" + Texts(children) + "</" + name + ">"
  }

  function Texts(xs: seq<Node>): string
    decreases xs, 0
  {
    if xs == [] then "" else Text(xs[0]) + Texts(xs[1..])
  }

  /** lmxattrib__getrenderedlen */
  method AttrsLen(attrs: seq<Attr>) returns (n: nat)
    ensures n == |AttrsText(attrs)|
  {
    n := 0;
    for i := 0 to |attrs|
      invariant n + |AttrsText(attrs[i..])| == |AttrsText(attrs)|
    {
      n := n + 1 + |attrs[i].name| + 1 + 1;
      if attrs[i].value.Some? {
        n := n + |attrs[i].value.value|;
      }
      n := n + 1;
      assert attrs[i..][1..] == attrs[i + 1..];
    }
  }

  /** lmx__getrenderedlen: the sizing pass */
  method RenderedLen(x: Node) returns (n: nat)
    ensures n == |Text(x)|
    decreases x
  {
    match x
    case Cdata(text) =>
      n := EncodedLen(text);
    case Tag(name, attrs, children) =>
      n := 1 + |name| + 1;
      var k := AttrsLen(attrs);
      n := n + k;
      if children == [] {
        return n + 1;
      }
      var m := 0;
      for i := 0 to |children|
        invariant m + |Texts(children[i..])| == |Texts(children)|
      {
        k := RenderedLen(children[i]);
        m := m + k;
        assert children[i..][1..] == children[i + 1..];
      }
      n := n + m + 1 + 1 + |name| + 1;
  }

  // ---- The render pass

  /** The text `s` stands at `at`, with a terminator behind it, and everything before is as it was. */
  ghost predicate Stands(before: seq<char>, after: seq<char>, at: nat, s: string)
  {
    && |after| == |before| && at + |s| < |after|
    && after[..at] == before[..at]
    && after[at..at + |s|] == s
    && after[at + |s|] == '\0'
  }

  lemma StandsThen(a: seq<char>, b: seq<char>, c: seq<char>, at: nat, s: string, t: string)
    requires Stands(a, b, at, s) && Stands(b, c, at + |s|, t)
    ensures Stands(a, c, at, s + t)
  {
    assert c[..at + |s|] == b[..at + |s|];
    assert c[at..at + |s|] == b[at..at + |s|] by {
      assert forall i | at <= i < at + |s| :: c[i] == c[..at + |s|][i] == b[..at + |s|][i] == b[i];
    }
    assert c[at..at + |s + t|] == c[at..at + |s|] + c[at + |s|..at + |s| + |t|];
    assert c[..at] == b[..at + |s|][..at] == b[..at];
  }

  /** snprintf of a literal text, with room for it */
  method Print(buf: array<char>, at: nat, s: string) returns (n: nat)
    requires at + |s| < buf.Length
    modifies buf
    ensures n == |s| && Stands(old(buf[..]), buf[..], at, s)
  {
    forall i | 0 <= i < |s| {
      buf[at + i] := s[i];
    }
    buf[at + |s|] := '\0';
    assert buf[..][..at] == old(buf[..])[..at] && buf[..][at..at + |s|] == s;
    n := |s|;
  }

  /** cdatastr__putstr, with room for the escaped text */
  method PutStr(buf: array<char>, at: nat, s: string) returns (n: nat)
    requires at + |Encode(s)| < buf.Length
    modifies buf
    ensures n == |Encode(s)| && Stands(old(buf[..]), buf[..], at, Encode(s))
  {
    hide Stands, Escape;
    ghost var done := "";
    n := Print(buf, at, "");
    for i := 0 to |s|
      invariant done + Encode(s[i..]) == Encode(s) && n == |done|
      invariant Stands(old(buf[..]), buf[..], at, done)
    {
      ghost var b := buf[..];
      assert s[i..][1..] == s[i + 1..];
      var enc := Lookup(s[i]);
      var k := Print(buf, at + n, enc);
      StandsThen(old(buf[..]), b, buf[..], at, done, enc);
      n, done := n + k, done + enc;
    }
    assert done == Encode(s);
  }

  /** lmxattrib__render */
  method RenderAttrs(attrs: seq<Attr>, buf: array<char>, at: nat) returns (n: nat)
    requires at + |AttrsText(attrs)| < buf.Length
    modifies buf
    ensures n == |AttrsText(attrs)| && Stands(old(buf[..]), buf[..], at, AttrsText(attrs))
  {
    hide Stands, AttrText;
    ghost var done := "";
    n := Print(buf, at, "");
    for i := 0 to |attrs|
      invariant done + AttrsText(attrs[i..]) == AttrsText(attrs) && n == |done|
      invariant Stands(old(buf[..]), buf[..], at, done)
    {
      ghost var b := buf[..];
      assert attrs[i..][1..] == attrs[i + 1..];
      var k := Print(buf, at + n, AttrText(attrs[i]));
      StandsThen(old(buf[..]), b, buf[..], at, done, AttrText(attrs[i]));
      n, done := n + k, done + AttrText(attrs[i]);
    }
    assert done == AttrsText(attrs);
  }

  function OpenText(name: string, attrs: seq<Attr>, end: string): string {
    "<" + name + AttrsText(attrs) + end
  }

  /** The start of a tag, up to and including `end` */
  method RenderOpen(name: string, attrs: seq<Attr>, end: string, buf: array<char>, at: nat) returns (n: nat)
    requires at + |OpenText(name, attrs, end)| < buf.Length
    modifies buf
    ensures n == |OpenText(name, attrs, end)| && Stands(old(buf[..]), buf[..], at, OpenText(name, attrs, end))
  {
    hide Stands, AttrsText;
    n := Print(buf, at, "<" + name);
    ghost var b := buf[..];
    var k := RenderAttrs(attrs, buf, at + n);
    StandsThen(old(buf[..]), b, buf[..], at, "<" + name, AttrsText(attrs));
    n := n + k;
    b := buf[..];
    k := Print(buf, at + n, end);
    StandsThen(old(buf[..]), b, buf[..], at, "<" + name + AttrsText(attrs), end);
    n := n + k;
  }

  method RenderChildren(xs: seq<Node>, buf: array<char>, at: nat) returns (n: nat)
    requires at + |Texts(xs)| < buf.Length
    modifies buf
    ensures n == |Texts(xs)| && Stands(old(buf[..]), buf[..], at, Texts(xs))
    decreases xs, 0
  {
    hide Stands, Text, Texts;
    ghost var done := "";
    assert xs[0..] == xs;
    n := Print(buf, at, "");
    for i := 0 to |xs|
      invariant done + Texts(xs[i..]) == Texts(xs) && n == |done|
      invariant Stands(old(buf[..]), buf[..], at, done)
    {
      ghost var b := buf[..];
      TextsFrom(xs, i);
      var k := Render(xs[i], buf, at + n);
      StandsThen(old(buf[..]), b, buf[..], at, done, Text(xs[i]));
      n, done := n + k, done + Text(xs[i]);
    }
    TextsFrom(xs, |xs|);
    assert done + [] == done == Texts(xs);
  }

  lemma TextsFrom(xs: seq<Node>, i: nat)
    requires i <= |xs|
    ensures Texts(xs[i..]) == if i < |xs| then Text(xs[i]) + Texts(xs[i + 1..]) else ""
  {
    hide Text;
    if i < |xs| {
      assert xs[i..][1..] == xs[i + 1..];
    }
  }

  /** lmx__render: the render pass, into a buffer with room for the text and its terminator */
  method Render(x: Node, buf: array<char>, at: nat) returns (n: nat)
    requires at + |Text(x)| < buf.Length
    modifies buf
    ensures n == |Text(x)| && Stands(old(buf[..]), buf[..], at, Text(x))
    decreases x, 1
  {
    hide Stands, Texts, AttrsText, Encode;
    match x
    case Cdata(text) =>
      n := PutStr(buf, at, text);
    case Tag(name, attrs, children) =>
      if children == [] {
        n := RenderOpen(name, attrs, "/>", buf, at);
        return;
      }
      ghost var open := OpenText(name, attrs, ">");
      var end := "</" + name + ">";
      assert Text(x) == open + Texts(children) + end;
      n := RenderOpen(name, attrs, ">", buf, at);
      ghost var b := buf[..];
      var k := RenderChildren(children, buf, at + n);
      StandsThen(old(buf[..]), b, buf[..], at, open, Texts(children));
      n := n + k;
      b := buf[..];
      k := Print(buf, at + n, end);
      StandsThen(old(buf[..]), b, buf[..], at, open + Texts(children), end);
      n := n + k;
  }

  // ---- Reading the text back

  /** The characters in front of the first one of `stops`. */
  function Run(s: string, stops: set<char>): (n: nat)
    ensures n <= |s|
  {
    if s == [] || s[0] in stops then 0 else 1 + Run(s[1..], stops)
  }

  /** A character, and how many it is written with. */
  function ReadChar(s: string): (r: (char, nat))
    requires s != []
    ensures 1 <= r.1 <= |s|
  {
    if "&amp;" <= s then ('&', 5)
    else if "&apos;" <= s then ('\'', 6)
    else if "&quot;" <= s then ('"', 6)
    else if "&lt;" <= s then ('<', 4)
    else if "&gt;" <= s then ('>', 4)
    else (s[0], 1)
  }

  /** An attribute: a space, a name, an equals sign, and a value in single quotes. */
  function ReadAttr(s: string): (r: Option<(Attr, string)>)
    ensures r.Some? ==> |r.value.1| < |s|
  {
    if s == [] || s[0] != ' ' then None else
    var n := Run(s[1..], {'='});
    var v := s[1 + n..];
    if |v| < 2 || v[0] != '=' || v[1] != '\'' then None else
    var k := Run(v[2..], {'\''});
    if 2 + k >= |v| then None else Some((Attr(s[1..1 + n], Some(v[2..2 + k])), v[3 + k..]))
  }

  function ReadAttrs(s: string): (r: (seq<Attr>, string))
    ensures |r.1| <= |s|
    decreases |s|
  {
    match ReadAttr(s)
    case None => ([], s)
    case Some((a, rest)) =>
      var (more, r) := ReadAttrs(rest);
      ([a] + more, r)
  }

  datatype Token = Open(name: string, attrs: seq<Attr>, alone: bool) | Close(name: string) | Char(c: char)

  datatype Lexeme = Malformed | Lexeme(token: Token, rest: string)

  /** What the text starts with. */
  function ReadToken(s: string): (l: Lexeme)
    requires s != []
    ensures l.Lexeme? ==> |l.rest| < |s|
  {
    if s[0] != '<' then
      var (c, n) := ReadChar(s);
      Lexeme(Char(c), s[n..])
    else if |s| > 1 && s[1] == '/' then
      var n := Run(s[2..], {'>'});
      if 2 + n < |s| then Lexeme(Close(s[2..2 + n]), s[3 + n..]) else Malformed
    else
      var n := Run(s[1..], {' ', '/', '>'});
      var (attrs, r) := ReadAttrs(s[1 + n..]);
      if "/>" <= r then Lexeme(Open(s[1..1 + n], attrs, true), r[2..])
      else if ">" <= r then Lexeme(Open(s[1..1 + n], attrs, false), r[1..])
      else Malformed
  }

  function Lex(s: string): seq<Token>
    decreases |s|
  {
    if s == [] then [] else
    match ReadToken(s)
    case Malformed => []
    case Lexeme(token, rest) => [token] + Lex(rest)
  }

  /** Text in front of other nodes: empty text is none, and adjacent texts are one. */
  function AddText(t: string, xs: seq<Node>): seq<Node> {
    if t == "" then xs
    else if xs != [] && xs[0].Cdata? then [Cdata(t + xs[0].text)] + xs[1..]
    else [Cdata(t)] + xs
  }

  /** Nodes up to a closing tag that is not theirs, and what follows them. */
  function Nodes(ts: seq<Token>): (r: (seq<Node>, seq<Token>))
    ensures |r.1| <= |ts|
    decreases |ts|
  {
    if ts == [] || ts[0].Close? then ([], ts) else
    match ts[0]
    case Char(c) =>
      var (xs, r) := Nodes(ts[1..]);
      (AddText([c], xs), r)
    case Open(name, attrs, alone) =>
      if alone then
        var (xs, r) := Nodes(ts[1..]);
        ([Tag(name, attrs, [])] + xs, r)
      else
        var (kids, r) := Nodes(ts[1..]);
        if r == [] || r[0] != Close(name) then ([], r) else
        var (xs, r') := Nodes(r[1..]);
        ([Tag(name, attrs, kids)] + xs, r')
  }

  function ReadNodes(s: string): seq<Node> {
    Nodes(Lex(s)).0
  }

  // ---- What can be read back

  const MARKS: set<char> := {' ', '=', '\'', '"', '/', '<', '>'}

  predicate NameOk(name: string) {
    forall c <- name :: c !in MARKS
  }

  predicate AttrsOk(attrs: seq<Attr>) {
    forall a <- attrs :: NameOk(a.name) && (a.value.Some? ==> '\'' !in a.value.value)
  }

  predicate Readable(xs: seq<Node>)
    decreases xs
  {
    xs == [] || (Readable(xs[1..]) &&
      (xs[0].Tag? ==> xs[0].name != "" && NameOk(xs[0].name) && AttrsOk(xs[0].attrs) && Readable(xs[0].children)))
  }

  /** An attribute without a value is written with an empty one. */
  function Filled(attrs: seq<Attr>): seq<Attr> {
    if attrs == [] then []
    else [Attr(attrs[0].name, if attrs[0].value.Some? then attrs[0].value else Some(""))] + Filled(attrs[1..])
  }

  /** The nodes as they are read: empty and adjacent texts joined, attributes filled. */
  function Normal(xs: seq<Node>): seq<Node>
    decreases xs
  {
    if xs == [] then [] else
    match xs[0]
    case Cdata(t) => AddText(t, Normal(xs[1..]))
    case Tag(name, attrs, kids) => [Tag(name, Filled(attrs), Normal(kids))] + Normal(xs[1..])
  }

  // ---- The tokens of a text

  function Chars(t: string): seq<Token> {
    if t == [] then [] else [Char(t[0])] + Chars(t[1..])
  }

  function Tokens(xs: seq<Node>): seq<Token>
    decreases xs
  {
    if xs == [] then [] else
    (match xs[0]
     case Cdata(t) => Chars(t)
     case Tag(name, attrs, kids) =>
       if kids == [] then [Open(name, Filled(attrs), true)]
       else [Open(name, Filled(attrs), false)] + Tokens(kids) + [Close(name)])
    + Tokens(xs[1..])
  }

  lemma {:induction false} RunIs(a: string, b: string, stops: set<char>)
    requires (forall c <- a :: c !in stops) && b != [] && b[0] in stops
    ensures Run(a + b, stops) == |a|
  {
    if a == [] {
      assert a + b == b;
    } else {
      RunIs(a[1..], b, stops);
      assert (a + b)[1..] == a[1..] + b;
    }
  }

  lemma AttrShape(name: string, value: string, rest: string)
    ensures " " + name + "='" + value + "'" + rest == " " + (name + ("='" + (value + ("'" + rest))))
  {
  }

  lemma QuotedRead(value: string, rest: string)
    requires '\'' !in value
    ensures var v := "='" + (value + ("'" + rest));
            && |v| >= 2 && v[0] == '=' && v[1] == '\'' && Run(v[2..], {'\''}) == |value|
            && 2 + |value| < |v| && v[2..2 + |value|] == value && v[3 + |value|..] == rest
  {
    var tail := "'" + rest;
    var v := "='" + (value + tail);
    assert v[2..] == value + tail;
    RunIs(value, tail, {'\''});
  }

  lemma AttrRead(a: Attr, rest: string)
    requires NameOk(a.name) && (a.value.Some? ==> '\'' !in a.value.value)
    ensures var value := if a.value.Some? then a.value.value else "";
            ReadAttr(AttrText(a) + rest) == Some((Attr(a.name, Some(value)), rest))
  {
    hide Run;
    var value := if a.value.Some? then a.value.value else "";
    var v := "='" + (value + ("'" + rest));
    AttrShape(a.name, value, rest);
    QuotedRead(value, rest);
    RunIs(a.name, v, {'='});
    NamedRead(a.name, value, v, rest);
  }

  lemma NamedRead(name: string, value: string, v: string, rest: string)
    requires Run(name + v, {'='}) == |name|
    requires |v| >= 2 && v[0] == '=' && v[1] == '\'' && Run(v[2..], {'\''}) == |value|
    requires 2 + |value| < |v| && v[2..2 + |value|] == value && v[3 + |value|..] == rest
    ensures ReadAttr(" " + (name + v)) == Some((Attr(name, Some(value)), rest))
  {
    hide Run;
    var s := " " + (name + v);
    assert s[1..] == name + v && s[1 + |name|..] == v && s[1..1 + |name|] == name;
  }

  lemma {:induction false} AttrsRead(attrs: seq<Attr>, rest: string)
    requires AttrsOk(attrs) && rest != [] && rest[0] != ' '
    ensures ReadAttrs(AttrsText(attrs) + rest) == (Filled(attrs), rest)
  {
    hide AttrText, NameOk, ReadAttr;
    if attrs == [] {
      NoAttr(rest);
      assert AttrsText(attrs) + rest == rest;
    } else {
      AttrsRead(attrs[1..], rest);
      var more := AttrsText(attrs[1..]) + rest;
      AttrRead(attrs[0], more);
      assert AttrsText(attrs) + rest == AttrText(attrs[0]) + more;
    }
  }

  lemma NoAttr(rest: string)
    requires rest != [] && rest[0] != ' '
    ensures ReadAttr(rest).None?
  {
  }

  lemma AttrsStart(attrs: seq<Attr>, end: string)
    requires end == "/>" || end == ">"
    ensures var s := AttrsText(attrs) + end; s[0] in {' ', '/', '>'}
  {
  }

  lemma OpenRead(name: string, attrs: seq<Attr>, end: string, rest: string)
    requires name != "" && NameOk(name) && AttrsOk(attrs) && (end == "/>" || end == ">")
    ensures var s := OpenText(name, attrs, end) + rest;
            s != [] && ReadToken(s) == Lexeme(Open(name, Filled(attrs), end == "/>"), rest)
  {
    hide AttrsText, ReadAttrs, Filled;
    var s := OpenText(name, attrs, end) + rest;
    var tail := AttrsText(attrs) + (end + rest);
    assert s[1..] == name + tail;
    assert s[1] == name[0] && name[0] in name;
    AttrsStart(attrs, end);
    assert tail[0] == (AttrsText(attrs) + end)[0];
    RunIs(name, tail, {' ', '/', '>'});
    assert s[1..1 + |name|] == name && s[1 + |name|..] == tail;
    AttrsRead(attrs, end + rest);
    assert end <= end + rest && (end + rest)[|end|..] == rest;
    assert end == ">" ==> !("/>" <= end + rest);
  }

  lemma CloseRead(name: string, rest: string)
    requires NameOk(name)
    ensures var s := "</" + name + ">" + rest; ReadToken(s) == Lexeme(Close(name), rest)
  {
    var s := "</" + name + ">" + rest;
    assert s[2..] == name + (">" + rest);
    RunIs(name, ">" + rest, {'>'});
    assert s[2..2 + |name|] == name && s[3 + |name|..] == rest;
  }

  lemma CharRead(c: char, rest: string)
    ensures var s := Escape(c) + rest; ReadToken(s) == Lexeme(Char(c), rest)
  {
    var s := Escape(c) + rest;
    assert s[|Escape(c)|..] == rest;
    if c == '&' || c == '\'' || c == '"' || c == '<' || c == '>' {
      var e := Escape(c);
      assert s[..|e|] == e && s[0] == e[0] && s[1] == e[1] && s[2] == e[2];
      assert e <= s && e[0] == '&';
    } else {
      assert s[0] == c;
    }
  }

  lemma LexToken(s: string, token: Token, rest: string)
    requires s != [] && ReadToken(s) == Lexeme(token, rest)
    ensures Lex(s) == [token] + Lex(rest)
  {
  }

  lemma {:induction false} LexChars(t: string, rest: string)
    ensures Lex(Encode(t) + rest) == Chars(t) + Lex(rest)
  {
    hide Lex, Escape, ReadToken;
    if t == [] {
      assert Encode(t) + rest == rest;
    } else {
      var more := Encode(t[1..]) + rest;
      assert Encode(t) + rest == Escape(t[0]) + more;
      CharRead(t[0], more);
      LexToken(Escape(t[0]) + more, Char(t[0]), more);
      LexChars(t[1..], rest);
    }
  }

  /** The tokens of rendered nodes, in front of any text. */
  lemma {:induction false} LexTexts(xs: seq<Node>, rest: string)
    requires Readable(xs)
    ensures Lex(Texts(xs) + rest) == Tokens(xs) + Lex(rest)
    decreases xs, 0
  {
    hide Lex, ReadToken, Encode, Filled, AttrsText, NameOk, AttrsOk;
    if xs == [] {
      assert Texts(xs) + rest == rest;
    } else {
      var more := Texts(xs[1..]) + rest;
      assert Texts(xs) + rest == Text(xs[0]) + more;
      LexTexts(xs[1..], rest);
      match xs[0]
      case Cdata(t) => LexChars(t, more);
      case Tag(name, attrs, kids) =>
        if kids == [] {
          assert Text(xs[0]) == OpenText(name, attrs, "/>");
          OpenRead(name, attrs, "/>", more);
          LexToken(Text(xs[0]) + more, Open(name, Filled(attrs), true), more);
        } else {
          LexTag(xs[0], more);
        }
    }
  }

  lemma TagShape(x: Node, more: string)
    requires x.Tag? && x.children != []
    ensures Text(x) + more ==
            OpenText(x.name, x.attrs, ">") + (Texts(x.children) + ("</" + x.name + ">" + more))
    ensures OpenText(x.name, x.attrs, ">") != "" && "</" + x.name + ">" + more != ""
  {
    hide Texts, AttrsText;
  }

  lemma LexTag(x: Node, more: string)
    requires x.Tag? && x.children != [] && Readable([x])
    ensures Lex(Text(x) + more) ==
            [Open(x.name, Filled(x.attrs), false)] + Tokens(x.children) + [Close(x.name)] + Lex(more)
    decreases x, 0
  {
    hide Lex, ReadToken, Filled, AttrsText, NameOk, AttrsOk, Tokens, Texts, Text, OpenText;
    var end := "</" + x.name + ">" + more;
    var inner := Texts(x.children) + end;
    TagShape(x, more);
    OpenRead(x.name, x.attrs, ">", inner);
    LexToken(Text(x) + more, Open(x.name, Filled(x.attrs), false), inner);
    LexTexts(x.children, end);
    CloseRead(x.name, more);
    LexToken(end, Close(x.name), more);
  }

  lemma NodesChar(c: char, ts: seq<Token>)
    ensures Nodes([Char(c)] + ts) == (AddText([c], Nodes(ts).0), Nodes(ts).1)
  {
    assert ([Char(c)] + ts)[1..] == ts;
  }

  lemma {:induction false} NodesChars(t: string, ts: seq<Token>)
    ensures Nodes(Chars(t) + ts) == (AddText(t, Nodes(ts).0), Nodes(ts).1)
  {
    if t == [] {
      assert Chars(t) + ts == ts;
    } else {
      hide Nodes, AddText;
      assert Chars(t) + ts == [Char(t[0])] + (Chars(t[1..]) + ts);
      NodesChar(t[0], Chars(t[1..]) + ts);
      NodesChars(t[1..], ts);
      assert [t[0]] + t[1..] == t;
      AddTwice([t[0]], t[1..], Nodes(ts).0);
    }
  }

  lemma AddTwice(s: string, t: string, xs: seq<Node>)
    ensures AddText(s, AddText(t, xs)) == AddText(s + t, xs)
  {
    if s == "" {
      assert s + t == t;
    } else if t == "" {
      assert s + t == s;
    } else if xs != [] && xs[0].Cdata? {
      assert s + (t + xs[0].text) == s + t + xs[0].text;
      assert ([Cdata(t + xs[0].text)] + xs[1..])[1..] == xs[1..];
    } else {
      assert ([Cdata(t)] + xs)[1..] == xs;
    }
  }

  lemma NodesAlone(name: string, attrs: seq<Attr>, more: seq<Token>)
    ensures Nodes([Open(name, attrs, true)] + more) == ([Tag(name, attrs, [])] + Nodes(more).0, Nodes(more).1)
  {
    assert ([Open(name, attrs, true)] + more)[1..] == more;
  }

  lemma NodesPair(name: string, attrs: seq<Attr>, inner: seq<Token>, kids: seq<Node>, more: seq<Token>)
    requires Nodes(inner + ([Close(name)] + more)) == (kids, [Close(name)] + more)
    ensures Nodes([Open(name, attrs, false)] + (inner + ([Close(name)] + more))) ==
            ([Tag(name, attrs, kids)] + Nodes(more).0, Nodes(more).1)
  {
    var rest := inner + ([Close(name)] + more);
    assert ([Open(name, attrs, false)] + rest)[1..] == rest && ([Close(name)] + more)[1..] == more;
  }

  /** The nodes are read back from their tokens. */
  lemma {:induction false} NodesTokens(xs: seq<Node>, rest: seq<Token>)
    requires rest == [] || rest[0].Close?
    ensures Nodes(Tokens(xs) + rest) == (Normal(xs), rest)
    decreases xs
  {
    hide AddText, Filled, Chars, Nodes;
    if xs == [] {
      assert Tokens(xs) + rest == rest;
      NodesEnd(rest);
    } else {
      var more := Tokens(xs[1..]) + rest;
      NodesTokens(xs[1..], rest);
      match xs[0]
      case Cdata(t) =>
        assert Tokens(xs) + rest == Chars(t) + more;
        NodesChars(t, more);
      case Tag(name, attrs, kids) =>
        if kids == [] {
          assert Tokens(xs) + rest == [Open(name, Filled(attrs), true)] + more;
          NodesAlone(name, Filled(attrs), more);
        } else {
          var inner := Tokens(kids);
          assert Tokens(xs) + rest == [Open(name, Filled(attrs), false)] + (inner + ([Close(name)] + more));
          NodesTokens(kids, [Close(name)] + more);
          NodesPair(name, Filled(attrs), inner, Normal(kids), more);
        }
    }
  }

  lemma NodesEnd(rest: seq<Token>)
    requires rest == [] || rest[0].Close?
    ensures Nodes(rest) == ([], rest)
  {
  }

  /**
   Reading a rendered tree gives the tree, with its attributes and names in order, and adjacent and
   empty character data joined; names hold none of space, equals sign, quotes, slash and angle
   brackets, and values no single quote.
   */
  lemma ReadsBack(x: Node)
    requires Readable([x])
    ensures ReadNodes(Text(x)) == Normal([x])
  {
    hide Lex, Tokens, Normal, Nodes, Text;
    assert Texts([x]) == Text(x) + Texts([]) && [x][1..] == [];
    assert Texts([x]) + [] == Text(x);
    LexTexts([x], []);
    LexNothing();
    NodesTokens([x], []);
    assert Tokens([x]) + [] == Tokens([x]);
  }

  lemma LexNothing()
    ensures Lex([]) == []
  {
  }

  /** lmx_get_string: the buffer sized by the first pass holds exactly the text, which reads as the tree, and a NUL */
  method GetString(x: Node) returns (buf: array<char>)
    ensures buf[..] == Text(x) + ['\0']
    ensures Readable([x]) ==> ReadNodes(buf[..buf.Length - 1]) == Normal([x])
  {
    hide Text, ReadNodes;
    var len := RenderedLen(x);
    buf := new char[len + 1];
    var n := Render(x, buf, 0);
    assert buf[..] == buf[..][0..len] + [buf[..][len]];
    assert buf[..buf.Length - 1] == Text(x);
    if Readable([x]) {
      ReadsBack(x);
    }
  }
}

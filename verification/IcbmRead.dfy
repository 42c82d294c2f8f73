/** Reading extracted message text back into characters, as HTML with numeric entities (timps/oscar/im.c). */
module IcbmRead {
  import opened Basics
  import opened Wire
  import opened Icbm

  // ---- The reader: `&#` and four hexadecimal digits and `;` is one character, any other byte is itself

  predicate IsDigit(b: nat) {
    48 <= b <= 57 || 97 <= b <= 102
  }

  function DigitValue(b: nat): nat
    requires IsDigit(b)
  {
    if b <= 57 then b - 48 else b - 97 + 10
  }

  /** An entity at the start, in bytes or in characters. */
  predicate EntityAt(s: seq<nat>) {
    && |s| >= 7 && s[0] == 38 && s[1] == 35 && s[6] == 59
    && IsDigit(s[2]) && IsDigit(s[3]) && IsDigit(s[4]) && IsDigit(s[5])
  }

  /** Most significant digit first. */
  function EntityValue(s: seq<nat>): nat
    requires EntityAt(s)
  {
    DigitValue(s[2]) * 4096 + DigitValue(s[3]) * 256 + DigitValue(s[4]) * 16 + DigitValue(s[5])
  }

  /** The character HTML takes it for, where digits without an `x` in front are decimal. */
  function HtmlValue(s: seq<nat>): Option<nat>
    requires EntityAt(s)
  {
    if forall i | 2 <= i < 6 :: s[i] <= 57 then
      Some((s[2] - 48) * 1000 + (s[3] - 48) * 100 + (s[4] - 48) * 10 + (s[5] - 48))
    else None
  }

  /** None of the entities written is, in HTML, the character it is written for. */
  lemma NeverHtml(c: u16)
    requires c >= 128
    ensures Glyph(c) == Entity(c) && EntityAt(Plain(Entity(c)))
    ensures EntityValue(Plain(Entity(c))) == c && HtmlValue(Plain(Entity(c))) != Some(c as nat)
  {
    EntityRead(c, []);
    assert Entity(c) + [] == Entity(c);
    DigitsOf(c);
  }

  function Plain(s: Bytes): (r: seq<nat>)
    ensures |r| == |s| && forall i | 0 <= i < |s| :: r[i] == s[i]
  {
    seq(|s|, i requires 0 <= i < |s| => s[i])
  }

  function ReadText(s: Bytes): seq<nat>
    decreases |s|
  {
    if s == [] then []
    else if EntityAt(Plain(s)) then [EntityValue(Plain(s))] + ReadText(s[7..])
    else [s[0] as nat] + ReadText(s[1..])
  }

  /** The characters hold no sequence that reads like an entity. */
  predicate NoLiteral(cs: seq<nat>) {
    cs == [] || (!EntityAt(cs) && NoLiteral(cs[1..]))
  }

  // ---- The characters of a message

  /** ASCII and ISO-8859-1 sections have a character in each byte, 16-bit ones in each pair, high byte first. */
  function CharsOf(p: Part): (cs: seq<nat>) {
    if p.f1 == 2 then
      seq(|p.body| / 2, i requires 0 <= i < |p.body| / 2 => p.body[2 * i] as nat * 256 + p.body[2 * i + 1])
    else Plain(p.body)
  }

  function AllChars(ps: seq<Part>): seq<nat> {
    if ps == [] then [] else CharsOf(ps[0]) + AllChars(ps[1..])
  }

  /** A section that can be shown. */
  predicate Shows(p: Part) {
    p.f1 == 0 || p.f1 == 3 || (p.f1 == 2 && |p.body| % 2 == 0)
  }

  // ---- How a text is made of characters

  /** A byte as it is, or an entity. */
  datatype Sign = Raw(b: byte) | Coded(c: u16)

  function Signed(g: Sign): Bytes {
    match g case Raw(b) => [b] case Coded(c) => Entity(c)
  }

  function SignValue(g: Sign): nat {
    match g case Raw(b) => b case Coded(c) => c
  }

  function Written(gs: seq<Sign>): Bytes {
    if gs == [] then [] else Signed(gs[0]) + Written(gs[1..])
  }

  function Values(gs: seq<Sign>): (vs: seq<nat>)
    ensures |vs| == |gs| && forall i | 0 <= i < |gs| :: vs[i] == SignValue(gs[i])
  {
    seq(|gs|, i requires 0 <= i < |gs| => SignValue(gs[i]))
  }

  /** Entities are used for characters outside ASCII only. */
  predicate Needed(gs: seq<Sign>) {
    forall g <- gs :: g.Coded? ==> g.c >= 128
  }

  lemma DigitRead(d: nat)
    requires d < 16
    ensures IsDigit(HexDigit(d)) && DigitValue(HexDigit(d)) == d
  {
  }

  lemma DigitsOf(c: u16)
    ensures c / 0x1000 < 16
    ensures c / 0x1000 * 4096 + c / 0x100 % 16 * 256 + c / 16 % 16 * 16 + c % 16 == c
  {
  }

  lemma EntityRead(c: u16, rest: Bytes)
    ensures var s := Plain(Entity(c) + rest); EntityAt(s) && EntityValue(s) == c
  {
    DigitsOf(c);
    var (a, b, d, e) := (c / 0x1000, c / 0x100 % 16, c / 16 % 16, c % 16);
    DigitRead(a);
    DigitRead(b);
    DigitRead(d);
    DigitRead(e);
    hide HexDigit, DigitValue, IsDigit;
    var s := Plain(Entity(c) + rest);
    assert Entity(c) == [38, 35, HexDigit(a), HexDigit(b), HexDigit(d), HexDigit(e), 59];
    assert s[0] == 38 && s[1] == 35 && s[6] == 59;
    assert s[2] == HexDigit(a) && s[3] == HexDigit(b) && s[4] == HexDigit(d) && s[5] == HexDigit(e);
  }

  lemma CodedFirst(gs: seq<Sign>)
    requires gs != []
    ensures |Written(gs)| > 0 && (gs[0].Coded? ==> Written(gs)[0] == 38)
  {
  }

  /** As far as the text has no ampersand, each byte is a character. */
  lemma {:induction false} RawPrefix(gs: seq<Sign>, k: nat)
    requires k <= |Written(gs)| && forall i | 0 <= i < k :: Written(gs)[i] != 38
    ensures k <= |gs| && forall i | 0 <= i < k :: gs[i].Raw? && gs[i].b == Written(gs)[i]
    decreases k
  {
    if k > 0 {
      CodedFirst(gs);
      assert Written(gs)[1..] == Written(gs[1..]);
      RawPrefix(gs[1..], k - 1);
    }
  }

  /** As far as the characters are bytes, the text is those bytes. */
  lemma {:induction false} PrefixRaw(gs: seq<Sign>, k: nat)
    requires k <= |gs| && forall i | 0 <= i < k :: gs[i].Raw?
    ensures k <= |Written(gs)| && Written(gs)[k..] == Written(gs[k..])
    ensures forall i | 0 <= i < k :: Written(gs)[i] == gs[i].b
    decreases k
  {
    if k > 0 {
      PrefixRaw(gs[1..], k - 1);
      assert Written(gs)[1..] == Written(gs[1..]);
      assert gs[1..][k - 1..] == gs[k..] && Written(gs)[1..][k - 1..] == Written(gs)[k..];
    }
  }

  lemma LiteralWritten(gs: seq<Sign>)
    requires gs != [] && gs[0].Raw? && EntityAt(Plain(Written(gs)))
    ensures |gs| >= 7 && forall i | 0 <= i < 7 :: gs[i] == Raw(Written(gs)[i])
  {
    var w := Written(gs);
    assert w[1..] == Written(gs[1..]);
    forall i | 0 <= i < 6 ensures w[1..][i] != 38 {
      assert w[1..][i] == Plain(w)[i + 1];
    }
    hide Written, EntityAt;
    RawPrefix(gs[1..], 6);
    forall i | 1 <= i < 7 ensures gs[i] == Raw(w[i]) {
      assert gs[i] == gs[1..][i - 1] && w[i] == w[1..][i - 1];
    }
    RawFirst(gs);
  }

  lemma RawFirst(gs: seq<Sign>)
    requires gs != [] && gs[0].Raw?
    ensures |Written(gs)| > 0 && Written(gs)[0] == gs[0].b
  {
  }

  /** Where the text begins with a byte, it reads like an entity exactly when the characters do. */
  lemma LiteralIff(gs: seq<Sign>)
    requires gs != [] && gs[0].Raw? && Needed(gs)
    ensures EntityAt(Plain(Written(gs))) <==> EntityAt(Values(gs))
  {
    var (w, v) := (Plain(Written(gs)), Values(gs));
    if EntityAt(w) {
      LiteralWritten(gs);
      SameStart(w, v);
    }
    if EntityAt(v) {
      LiteralRaw(gs);
      PrefixRaw(gs, 7);
      SameStart(v, w);
    }
  }

  lemma SameStart(a: seq<nat>, b: seq<nat>)
    requires EntityAt(a) && |b| >= 7 && forall i | 0 <= i < 7 :: a[i] == b[i]
    ensures EntityAt(b)
  {
  }

  /** Reading gives the characters, or, because of a literal entity among them, fewer. */
  lemma {:induction false} ReadWritten(gs: seq<Sign>)
    requires Needed(gs)
    ensures NoLiteral(Values(gs)) ==> ReadText(Written(gs)) == Values(gs)
    ensures !NoLiteral(Values(gs)) ==> |ReadText(Written(gs))| < |Values(gs)|
    decreases |gs|, 0
  {
    hide Entity, EntityAt, EntityValue;
    if gs != [] {
      var (w, v) := (Written(gs), Values(gs));
      assert v[1..] == Values(gs[1..]) && w == Signed(gs[0]) + Written(gs[1..]);
      ReadWritten(gs[1..]);
      if gs[0].Coded? {
        EntityRead(gs[0].c, Written(gs[1..]));
        assert w[7..] == Written(gs[1..]);
        assert v == [v[0]] + v[1..];
        BigIsPlain(v);
      } else {
        LiteralIff(gs);
        if EntityAt(v) {
          LiteralRaw(gs);
          PrefixRaw(gs, 7);
          ReadAtMost(gs[7..]);
        } else {
          assert w[1..] == Written(gs[1..]);
          assert v == [v[0]] + v[1..];
        }
      }
    }
  }

  lemma BigIsPlain(v: seq<nat>)
    requires v != [] && v[0] >= 128
    ensures !EntityAt(v)
  {
  }

  lemma LiteralRaw(gs: seq<Sign>)
    requires Needed(gs) && EntityAt(Values(gs))
    ensures |gs| >= 7 && (forall i | 0 <= i < 7 :: gs[i].Raw?) && Needed(gs[7..])
  {
    forall i | 0 <= i < 7 ensures gs[i].Raw? {
      assert Values(gs)[i] == SignValue(gs[i]) && gs[i] in gs;
    }
  }

  lemma ReadAtMost(gs: seq<Sign>)
    requires Needed(gs)
    ensures |ReadText(Written(gs))| <= |gs|
    decreases |gs|, 1
  {
    ReadWritten(gs);
  }

  // ---- Sections

  /** The signs for a section. */
  function SignsOf(p: Part): seq<Sign> {
    var cs := CharsOf(p);
    seq(|cs|, i requires 0 <= i < |cs| => if p.f1 == 2 && cs[i] >= 128 then Coded(cs[i] % W16) else Raw(cs[i] % 256))
  }

  function AllSigns(ps: seq<Part>): seq<Sign> {
    if ps == [] then [] else SignsOf(ps[0]) + AllSigns(ps[1..])
  }

  lemma SignsFacts(p: Part)
    ensures Values(SignsOf(p)) == CharsOf(p) && Needed(SignsOf(p))
  {
    var (gs, cs) := (SignsOf(p), CharsOf(p));
    forall i | 0 <= i < |cs| ensures SignValue(gs[i]) == cs[i] {
    }
  }

  lemma {:induction false} WrittenAppend(a: seq<Sign>, b: seq<Sign>)
    ensures Written(a + b) == Written(a) + Written(b)
  {
    hide Signed;
    if a == [] {
      assert a + b == b;
    } else {
      WrittenAppend(a[1..], b);
      assert (a + b)[1..] == a[1..] + b && (a + b)[0] == a[0];
    }
  }

  lemma {:induction false} BytesWritten(s: Bytes, gs: seq<Sign>)
    requires |gs| == |s| && forall i | 0 <= i < |s| :: gs[i] == Raw(s[i])
    ensures Written(gs) == s
  {
    if s != [] {
      BytesWritten(s[1..], gs[1..]);
    }
  }

  lemma {:induction false} TranslateWritten(s: Bytes, gs: seq<Sign>)
    requires |s| % 2 == 0 && |gs| == |s| / 2
    requires forall i | 0 <= i < |gs| ::
      var c := s[2 * i] as nat * 256 + s[2 * i + 1]; gs[i] == if c >= 128 then Coded(c) else Raw(c)
    ensures Written(gs) == Translate(s)
  {
    hide Entity;
    if s != [] {
      forall i | 0 <= i < |gs[1..]|
        ensures var c := s[2..][2 * i] as nat * 256 + s[2..][2 * i + 1];
                gs[1..][i] == if c >= 128 then Coded(c) else Raw(c)
      {
        assert gs[1..][i] == gs[i + 1] && s[2..][2 * i] == s[2 * (i + 1)] && s[2..][2 * i + 1] == s[2 * (i + 1) + 1];
      }
      TranslateWritten(s[2..], gs[1..]);
      assert s[2 * 0] == s[0];
    }
  }

  lemma PartWritten(p: Part)
    requires Shows(p)
    ensures PartText(p) == Some(Written(SignsOf(p)))
  {
    if p.f1 == 2 {
      TranslateWritten(p.body, SignsOf(p));
    } else {
      BytesWritten(p.body, SignsOf(p));
    }
  }

  lemma {:induction false} AllWritten(text: Option<Bytes>, ps: seq<Part>)
    requires forall p <- ps :: Shows(p)
    ensures Unshowable(ps) == 0 && Sofar(Joined(text, ps)) == Sofar(text) + Written(AllSigns(ps))
    ensures Values(AllSigns(ps)) == AllChars(ps) && Needed(AllSigns(ps))
    ensures text.Some? || ps != [] ==> Joined(text, ps).Some?
    decreases |ps|
  {
    hide PartText, SignsOf, CharsOf, Shows, Written;
    if ps == [] {
      NothingWritten();
      assert Sofar(text) + [] == Sofar(text);
    } else {
      PartWritten(ps[0]);
      SignsFacts(ps[0]);
      var t := Written(SignsOf(ps[0]));
      AllWritten(Some(Sofar(text) + t), ps[1..]);
      WrittenAppend(SignsOf(ps[0]), AllSigns(ps[1..]));
      assert Sofar(text) + t + Written(AllSigns(ps[1..])) == Sofar(text) + Written(AllSigns(ps));
      assert Values(AllSigns(ps)) == Values(SignsOf(ps[0])) + Values(AllSigns(ps[1..]));
    }
  }

  lemma NothingWritten()
    ensures Written([]) == []
  {
  }

  /** The text extracted from sections `ps` behind `features` reads as their characters. */
  ghost predicate Legible(features: Bytes, ps: seq<Part>, x: Extracted) {
    && x.Got? && x.unrepresentable == 0 && (ps != [] ==> x.text.Some?)
    && (ReadText(Sofar(x.text)) == AllChars(ps) <==> NoLiteral(AllChars(ps)))
  }

  /**
   Extracting a message whose sections can all be shown: reading the text gives the characters of the
   sections, in order, exactly when they do not themselves spell out an entity.
   */
  lemma MessageRead(features: Bytes, ps: seq<Part>, junk: Junk)
    requires |features| < W16 && forall p <- ps :: PartFits(p) && Shows(p)
    ensures Legible(features, ps, Extract(ValueOf(features, ps), junk))
  {
    hide Extract, ValueOf, Shows, PartText, Written, ReadText, NoLiteral;
    ExtractParts(features, ps, junk);
    AllWritten(None, ps);
    ReadWritten(AllSigns(ps));
    assert [] + Written(AllSigns(ps)) == Written(AllSigns(ps));
  }
}

/** Marked-up documents, and why the field of a tag is the right subtree of any document. */
module Markup {
  import opened CStrings
  import opened Sections
  import opened Fields

  // ----- documents -----

  /** Names of elements, what follows the name in an opening tag, and the text between tags. */
  type Name = m: string | '<' !in m && '>' !in m && '/' !in m witness ""
  type Attributes = a: string | '<' !in a && '>' !in a && (a == "" || IsSpace(a[0])) witness ""
  type Words = t: string | '<' !in t witness ""

  /** A run of text and elements, each followed by what comes next. */
  datatype Forest =
    | Empty
    | Chars(text: Words, next: Forest)
    | Element(name: Name, attributes: Attributes, children: Forest, next: Forest)

  function Opening(m: Name, a: Attributes): string { "<" + (m + a + ">") }

  function Closing(m: Name): string { "</" + (m + ">") }

  /** How many characters a document takes. */
  function Size(f: Forest): nat {
    match f
    case Empty => 0
    case Chars(t, next) => |t| + Size(next)
    case Element(m, a, c, next) => |m| + |a| + 2 + Size(c) + |m| + 3 + Size(next)
  }

  function Render(f: Forest): (s: string)
    ensures |s| == Size(f)
  {
    match f
    case Empty => ""
    case Chars(t, next) => t + Render(next)
    case Element(m, a, c, next) => Opening(m, a) + Render(c) + Closing(m) + Render(next)
  }

  // ----- asking for an element -----

  /** What an opening tag can start with, behind its `<`. */
  type Front = s: string | '<' !in s && '>' !in s && (s == "" || s[0] != '/') witness ""

  /** An element can be asked for by its whole opening tag, as in `<name>`, or by the start of
      it, as in `<name`. */
  datatype Query = Whole(name: Name) | Start(front: Front)

  predicate Matches(q: Query, m: Name) {
    match q
    case Whole(name) => m == name
    case Start(front) => front <= m
  }

  /** The tag that is searched for, without its `<`. */
  function Stem(q: Query): string {
    match q
    case Whole(name) => name + ">"
    case Start(front) => front
  }

  function QueryTags(q: Query): Tags {
    Tags("<" + Stem(q), "</" + Stem(q), "")
  }

  /** The opening tag of an element starts like the tag that is searched for. */
  predicate Opens(q: Query, m: Name, a: Attributes) {
    match q
    case Whole(name) => m + a == name
    case Start(front) => front <= m + a
  }

  /** A query can be read off an element if its opening tag is found exactly when its closing tag
      is: when the element is asked for. No whole tag can be read off elements of its name with
      attributes, no start that reaches into the attributes off its elements, and the empty start
      off none, since it is found in closing tags, too. */
  predicate Readable(q: Query, m: Name, a: Attributes) {
    Stem(q) != "" && (Opens(q, m, a) <==> Matches(q, m))
  }

  predicate AllReadable(f: Forest, q: Query) {
    match f
    case Empty => true
    case Chars(_, next) => AllReadable(next, q)
    case Element(m, a, c, next) => Readable(q, m, a) && AllReadable(c, q) && AllReadable(next, q)
  }

  predicate Has(f: Forest, q: Query) {
    match f
    case Empty => false
    case Chars(_, next) => Has(next, q)
    case Element(m, a, c, next) => Matches(q, m) || Has(c, q) || Has(next, q)
  }

  /** The children of the first element that is asked for, in preorder. */
  function First(f: Forest, q: Query): Forest
    requires Has(f, q)
  {
    match f
    case Chars(_, next) => First(next, q)
    case Element(m, a, c, next) =>
      if Matches(q, m) then c
      else if Has(c, q) then First(c, q)
      else First(next, q)
  }

  // ----- reading one tag of a document -----

  /** What stands in a tag behind `<` or `</`: its only `>` is the last character. */
  predicate IsBody(t: string) {
    t != "" && '<' !in t && t[|t| - 1] == '>' && forall j | 0 <= j < |t| - 1 :: t[j] != '>'
  }

  lemma BodyOf(m: Name, a: Attributes)
    ensures IsBody(m + a + ">") && (m + a + ">")[0] != '/'
  {
    var t := m + a + ">";
    forall j | 0 <= j < |t| - 1 ensures t[j] != '>' {
      assert t[j] == (m + a)[j] && (m + a)[j] in m + a;
    }
    assert m != "" ==> t[0] == m[0] && m[0] in m;
    assert m == "" && a != "" ==> t[0] == a[0];
  }

  lemma StemIs(q: Query)
    ensures Stem(q) != "" ==> Stem(q)[0] != '/'
    ensures forall j | 0 <= j < |Stem(q)| - 1 :: Stem(q)[j] != '>'
  {
    var s := Stem(q);
    match q
    case Whole(name) =>
      assert name != "" ==> name[0] in name && s[0] == name[0];
      forall j | 0 <= j < |s| - 1 ensures s[j] != '>' { assert s[j] == name[j] && name[j] in name; }
    case Start(front) =>
      forall j | 0 <= j < |s| - 1 ensures s[j] != '>' { assert s[j] in front; }
  }

  /** Where a body stands, the stem stands exactly if the body starts with it. */
  lemma StemInBody(text: seq<char>, p: nat, n: nat, t: string, s: string)
    requires n <= |text| && IsBody(t) && Spells(text, p, n, t)
    requires forall j | 0 <= j < |s| - 1 :: s[j] != '>'
    ensures Spells(text, p, n, s) <==> s <= t
  {
    if s <= t {
      assert t == s + t[|s|..];
      SpellsParts(text, p, n, s, t[|s|..]);
    }
    if Spells(text, p, n, s) {
      if |s| > |t| {
        SpelledAt(text, p, n, s, |t| - 1);
        SpelledAt(text, p, n, t, |t| - 1);
      }
      forall j | 0 <= j < |s| ensures s[j] == t[j] {
        SpelledAt(text, p, n, s, j);
        SpelledAt(text, p, n, t, j);
      }
    }
  }

  lemma WholeFills(t: string, s: string)
    requires IsBody(t) && s != "" && s <= t
    ensures s[|s| - 1] == '>' ==> s == t
  {
    assert t[|s| - 1] == s[|s| - 1];
  }

  lemma StartStaysInside(front: Front, x: string)
    requires front <= x + ">"
    ensures front <= x
  {
    assert (x + ">")[|x|] == '>';
    forall j | 0 <= j < |front| ensures front[j] != '>' && front[j] == (x + ">")[j] { assert front[j] in front; }
    assert (x + ">")[..|x|] == x;
  }

  lemma BodyStarts(q: Query, m: Name, a: Attributes)
    ensures Stem(q) <= m + a + ">" <==> Opens(q, m, a)
  {
    var s, t := Stem(q), m + a + ">";
    BodyOf(m, a);
    match q
    case Whole(name) =>
      if s <= t { WholeFills(t, s); }
      assert s[..|s| - 1] == name && t[..|t| - 1] == m + a;
    case Start(front) =>
      if s <= t { StartStaysInside(front, m + a); }
  }

  lemma ClosingBodyMatches(q: Query, m: Name)
    ensures Stem(q) <= m + ">" <==> Matches(q, m)
  {
    assert m + "" + ">" == m + ">" && m + "" == m;
    BodyStarts(q, m, "");
  }

  lemma OpeningKind(text: seq<char>, i: nat, n: nat, m: Name, a: Attributes, q: Query)
    requires n <= |text| && Spells(text, i, n, Opening(m, a))
    ensures i < n && QueryTags(q).At(text, i, n) == if Opens(q, m, a) then Open else Plain
  {
    var s, t := Stem(q), m + a + ">";
    BodyOf(m, a);
    StemIs(q);
    SpellsParts(text, i, n, "<", t);
    SpellsParts(text, i, n, "<", s);
    StemInBody(text, i + 1, n, t, s);
    BodyStarts(q, m, a);
    SpelledAt(text, i + 1, n, t, 0);
    if Spells(text, i, n, "</" + s) { SpelledAt(text, i, n, "</" + s, 1); }
  }

  lemma ClosingKind(text: seq<char>, i: nat, n: nat, m: Name, q: Query)
    requires n <= |text| && Spells(text, i, n, Closing(m)) && Stem(q) != ""
    ensures i < n && QueryTags(q).At(text, i, n) == if Matches(q, m) then Close else Plain
  {
    var s, t := Stem(q), m + ">";
    assert m + "" + ">" == t;
    BodyOf(m, "");
    StemIs(q);
    SpellsParts(text, i, n, "</", t);
    SpellsParts(text, i, n, "</", s);
    StemInBody(text, i + 2, n, t, s);
    ClosingBodyMatches(q, m);
    SpelledAt(text, i, n, "</" + t, 1);
    if Spells(text, i, n, "<" + s) { SpelledAt(text, i, n, "<" + s, 1); }
  }

  // ----- steps of the scan over the parts of a document -----

  /** What the scan holds: where it is, where the section begins, and how deep it is. */
  datatype State = State(at: nat, begin: Pointer, depth: nat)

  ghost predicate Gives(text: seq<char>, n: nat, q: Query, s: State, r: Section)
    requires n <= |text|
  {
    s.at <= n && Scan(text, s.at, n, s.begin, Null, s.depth, QueryTags(q)) == r
  }

  /** The scan comes from the one state to the other. */
  ghost predicate Passes(text: seq<char>, n: nat, q: Query, s: State, s': State)
    requires n <= |text|
  {
    s.at <= s'.at <= n && forall r | Gives(text, n, q, s', r) :: Gives(text, n, q, s, r)
  }

  lemma PassesThen(text: seq<char>, n: nat, q: Query, s: State, s': State, s'': State)
    requires n <= |text| && Passes(text, n, q, s, s') && Passes(text, n, q, s', s'')
    ensures Passes(text, n, q, s, s'')
  {}

  /** One step of the scan, which reads no tag that ends a section. */
  lemma PassesStep(text: seq<char>, n: nat, q: Query, s: State, s': State)
    requires n <= |text| && s.at < n
    requires var tags := QueryTags(q);
      var k := tags.At(text, s.at, n);
      && (k.Close? ==> s.depth > 1) && s'.depth == s.depth + Step(k) && s'.at == s.at + tags.Width(k)
      && s'.begin == if k.Open? && s.begin.Null? then To(s'.at) else s.begin
    ensures Passes(text, n, q, s, s')
  {}

  lemma {:induction false} ScanSkip(text: seq<char>, i: nat, e: nat, n: nat, s: State, q: Query)
    requires i <= e <= n <= |text|
    requires forall p | i <= p < e :: QueryTags(q).At(text, p, n).Plain?
    ensures Passes(text, n, q, s.(at := i), s.(at := e))
    decreases e - i
  {
    if i < e {
      ScanSkip(text, i + 1, e, n, s, q);
      PassesStep(text, n, q, s.(at := i), s.(at := i + 1));
      PassesThen(text, n, q, s.(at := i), s.(at := i + 1), s.(at := e));
    }
  }

  /** Characters other than `<` start no tag. */
  lemma ScanChars(text: seq<char>, n: nat, x: Words, q: Query, s: State, e: nat)
    requires n <= |text| && Spells(text, s.at, n, x) && e == s.at + |x|
    ensures Passes(text, n, q, s, s.(at := e))
  {
    var i, tags := s.at, QueryTags(q);
    forall p | i <= p < e ensures tags.At(text, p, n).Plain? {
      SpelledAt(text, i, n, x, p - i);
      assert x[p - i] in x;
      if Spells(text, p, n, tags.open) { SpelledAt(text, p, n, tags.open, 0); }
      if Spells(text, p, n, tags.close) { SpelledAt(text, p, n, tags.close, 0); }
    }
    ScanSkip(text, i, e, n, s, q);
  }

  /** When the first `k` characters of a body have been read, the rest of it is plain. */
  lemma ScanBody(text: seq<char>, n: nat, t: string, i: nat, k: nat, q: Query, s: State, e: nat)
    requires n <= |text| && '<' !in t && k <= |t| && Spells(text, i, n, t) && e == i + |t| && s.at == i + k
    ensures Passes(text, n, q, s, s.(at := e))
  {
    assert t == t[..k] + t[k..];
    SpellsParts(text, i, n, t[..k], t[k..]);
    ScanChars(text, n, t[k..], q, s, e);
  }

  /** Behind the opening tag of an element that is asked for, which ends at `w`. */
  function Inside(s: State, q: Query, w: nat): State {
    State(w, if s.begin.Null? then To(s.at + 1 + |Stem(q)|) else s.begin, s.depth + 1)
  }

  /** A tag that is read jumps over its stem, as far as `p`; `lead` is `<` or `</`. */
  lemma OwnTag(text: seq<char>, n: nat, lead: string, t: string, q: Query, s: State, p: State, e: nat)
    requires n <= |text| && '<' !in t && Stem(q) <= t
    requires Spells(text, s.at, n, lead + t) && e == s.at + |lead| + |t|
    requires p.at == s.at + |lead| + |Stem(q)| && Passes(text, n, q, s, p)
    ensures Passes(text, n, q, s, p.(at := e))
  {
    SpellsParts(text, s.at, n, lead, t);
    ScanBody(text, n, t, s.at + |lead|, |Stem(q)|, q, p, e);
    PassesThen(text, n, q, s, p, p.(at := e));
  }

  lemma OwnOpening(text: seq<char>, n: nat, m: Name, a: Attributes, q: Query, s: State, w: nat)
    requires n <= |text| && Readable(q, m, a) && Spells(text, s.at, n, Opening(m, a))
    requires w == s.at + |m| + |a| + 2 && Matches(q, m)
    ensures Passes(text, n, q, s, Inside(s, q, w))
  {
    var p := Inside(s, q, s.at + 1 + |Stem(q)|);
    OpeningKind(text, s.at, n, m, a, q);
    BodyStarts(q, m, a);
    assert '<' !in m + a + ">" by { BodyOf(m, a); }
    PassesStep(text, n, q, s, p);
    OwnTag(text, n, "<", m + a + ">", q, s, p, w);
  }

  lemma OtherTag(text: seq<char>, n: nat, t: string, q: Query, s: State, e: nat)
    requires n <= |text| && '<' !in t && Spells(text, s.at, n, "<" + t) && e == s.at + 1 + |t|
    requires s.at < n && QueryTags(q).At(text, s.at, n).Plain?
    ensures Passes(text, n, q, s, s.(at := e))
  {
    var p := s.(at := s.at + 1);
    SpellsParts(text, s.at, n, "<", t);
    PassesStep(text, n, q, s, p);
    ScanChars(text, n, t, q, p, e);
    PassesThen(text, n, q, s, p, s.(at := e));
  }

  lemma OtherOpening(text: seq<char>, n: nat, m: Name, a: Attributes, q: Query, s: State, w: nat)
    requires n <= |text| && Readable(q, m, a) && Spells(text, s.at, n, Opening(m, a))
    requires w == s.at + |m| + |a| + 2 && !Matches(q, m)
    ensures Passes(text, n, q, s, s.(at := w))
  {
    OpeningKind(text, s.at, n, m, a, q);
    BodyOf(m, a);
    OtherTag(text, n, m + a + ">", q, s, w);
  }

  lemma OwnClosing(text: seq<char>, n: nat, m: Name, q: Query, s: State, d: nat)
    requires n <= |text| && Spells(text, s.at, n, Closing(m)) && Stem(q) != ""
    requires d == s.at + |m| + 3 && Matches(q, m) && s.depth > 1
    ensures Passes(text, n, q, s, State(d, s.begin, s.depth - 1))
  {
    ClosingKind(text, s.at, n, m, q);
    ClosingBodyMatches(q, m);
    var p := State(s.at + 2 + |Stem(q)|, s.begin, s.depth - 1);
    PassesStep(text, n, q, s, p);
    OwnTag(text, n, "</", m + ">", q, s, p, d);
  }

  lemma OtherClosing(text: seq<char>, n: nat, m: Name, q: Query, s: State, d: nat)
    requires n <= |text| && Spells(text, s.at, n, Closing(m)) && Stem(q) != ""
    requires d == s.at + |m| + 3 && !Matches(q, m)
    ensures Passes(text, n, q, s, s.(at := d))
  {
    ClosingKind(text, s.at, n, m, q);
    assert '<' !in "/" + (m + ">");
    assert Closing(m) == "<" + ("/" + (m + ">"));
    OtherTag(text, n, "/" + (m + ">"), q, s, d);
  }

  // ----- documents in a text -----

  /** The document `f` stands in the text at `i`, part by part, and the query can be read off its tags. */
  predicate Shows(text: seq<char>, i: nat, n: nat, f: Forest, q: Query)
    requires n <= |text|
    decreases f
  {
    match f
    case Empty => i <= n
    case Chars(t, next) => Spells(text, i, n, t) && Shows(text, i + |t|, n, next, q)
    case Element(m, a, c, next) =>
      var w := i + |m| + |a| + 2;
      var e := w + Size(c);
      && Readable(q, m, a)
      && Spells(text, i, n, Opening(m, a)) && Shows(text, w, n, c, q)
      && Spells(text, e, n, Closing(m)) && Shows(text, e + |m| + 3, n, next, q)
  }

  lemma SpellsFour(text: seq<char>, i: nat, a: nat, b: nat, d: nat, n: nat, x: string, y: string, z: string, w: string)
    requires n <= |text| && a == i + |x| && b == a + |y| && d == b + |z|
    ensures Spells(text, i, n, x + y + z + w)
       <==> Spells(text, i, n, x) && Spells(text, a, n, y) && Spells(text, b, n, z) && Spells(text, d, n, w)
  {
    SpellsParts(text, i, n, x + y + z, w);
    SpellsParts(text, i, n, x + y, z);
    SpellsParts(text, i, n, x, y);
  }

  lemma SpelledElement(text: seq<char>, i: nat, w: nat, e: nat, d: nat, n: nat,
                       m: Name, a: Attributes, c: Forest, next: Forest)
    requires n <= |text| && w == i + |m| + |a| + 2 && e == w + Size(c) && d == e + |m| + 3
    ensures Spells(text, i, n, Render(Element(m, a, c, next)))
       <==> Spells(text, i, n, Opening(m, a)) && Spells(text, w, n, Render(c))
            && Spells(text, e, n, Closing(m)) && Spells(text, d, n, Render(next))
  {
    SpellsFour(text, i, w, e, d, n, Opening(m, a), Render(c), Closing(m), Render(next));
  }

  lemma {:induction false} ElementShown(text: seq<char>, i: nat, w: nat, e: nat, d: nat, n: nat,
                                        m: Name, a: Attributes, c: Forest, next: Forest, q: Query)
    requires n <= |text| && w == i + |m| + |a| + 2 && e == w + Size(c) && d == e + |m| + 3
    requires Readable(q, m, a) && Spells(text, i, n, Opening(m, a)) && Shows(text, w, n, c, q)
    requires Spells(text, e, n, Closing(m)) && Shows(text, d, n, next, q)
    ensures Shows(text, i, n, Element(m, a, c, next), q)
  {}

  lemma {:induction false} SpelledIsShown(text: seq<char>, i: nat, n: nat, f: Forest, q: Query)
    requires n <= |text| && Spells(text, i, n, Render(f)) && AllReadable(f, q)
    ensures Shows(text, i, n, f, q)
    decreases f
  {
    match f
    case Empty =>
    case Chars(t, next) =>
      SpellsParts(text, i, n, t, Render(next));
      SpelledIsShown(text, i + |t|, n, next, q);
    case Element(m, a, c, next) =>
      var w := i + |m| + |a| + 2;
      var e := w + Size(c);
      var d := e + |m| + 3;
      SpelledElement(text, i, w, e, d, n, m, a, c, next);
      SpelledIsShown(text, w, n, c, q);
      SpelledIsShown(text, d, n, next, q);
      ElementShown(text, i, w, e, d, n, m, a, c, next, q);
  }

  lemma {:induction false} ShownElement(text: seq<char>, i: nat, w: nat, e: nat, d: nat, n: nat,
                                        m: Name, a: Attributes, c: Forest, next: Forest, q: Query)
    requires n <= |text| && w == i + |m| + |a| + 2 && e == w + Size(c) && d == e + |m| + 3
    requires Shows(text, i, n, Element(m, a, c, next), q)
    ensures Readable(q, m, a) && Spells(text, i, n, Opening(m, a)) && Shows(text, w, n, c, q)
    ensures Spells(text, e, n, Closing(m)) && Shows(text, d, n, next, q)
  {}

  lemma {:induction false} ShownIsSpelled(text: seq<char>, i: nat, n: nat, f: Forest, q: Query)
    requires n <= |text| && Shows(text, i, n, f, q)
    ensures Spells(text, i, n, Render(f))
    decreases f
  {
    match f
    case Empty =>
    case Chars(t, next) =>
      ShownIsSpelled(text, i + |t|, n, next, q);
      SpellsParts(text, i, n, t, Render(next));
    case Element(m, a, c, next) =>
      var w := i + |m| + |a| + 2;
      var e := w + Size(c);
      var d := e + |m| + 3;
      ShownElement(text, i, w, e, d, n, m, a, c, next, q);
      ShownIsSpelled(text, w, n, c, q);
      ShownIsSpelled(text, d, n, next, q);
      SpelledElement(text, i, w, e, d, n, m, a, c, next);
  }

  // ----- the section of a query in a document -----

  /** An element leaves the scan as it was if its children do. */
  lemma ScanOwn(text: seq<char>, n: nat, m: Name, a: Attributes, q: Query, s: State, w: nat, e: nat, d: nat)
    requires n <= |text| && Readable(q, m, a)
    requires Matches(q, m) && s.begin.To? && s.depth >= 1
    requires w == s.at + |m| + |a| + 2 && d == e + |m| + 3
    requires Spells(text, s.at, n, Opening(m, a)) && Spells(text, e, n, Closing(m))
    requires Passes(text, n, q, Inside(s, q, w), Inside(s, q, e))
    ensures Passes(text, n, q, s, s.(at := d))
  {
    OwnOpening(text, n, m, a, q, s, w);
    PassesThen(text, n, q, s, Inside(s, q, w), Inside(s, q, e));
    OwnClosing(text, n, m, q, Inside(s, q, e), d);
    PassesThen(text, n, q, s, Inside(s, q, e), s.(at := d));
  }

  lemma ScanOther(text: seq<char>, n: nat, m: Name, a: Attributes, q: Query, s: State, w: nat, e: nat, d: nat)
    requires n <= |text| && Readable(q, m, a) && !Matches(q, m)
    requires w == s.at + |m| + |a| + 2 && d == e + |m| + 3
    requires Spells(text, s.at, n, Opening(m, a)) && Spells(text, e, n, Closing(m))
    requires Passes(text, n, q, s.(at := w), s.(at := e))
    ensures Passes(text, n, q, s, s.(at := d))
  {
    OtherOpening(text, n, m, a, q, s, w);
    PassesThen(text, n, q, s, s.(at := w), s.(at := e));
    OtherClosing(text, n, m, q, s.(at := e), d);
    PassesThen(text, n, q, s, s.(at := e), s.(at := d));
  }

  /** An element in a section leaves the scan as it was if its children do, wherever the scan is inside it. */
  lemma ScanElement(text: seq<char>, n: nat, m: Name, a: Attributes, q: Query, s: State, w: nat, e: nat, d: nat)
    requires n <= |text| && Readable(q, m, a) && s.begin.To? && s.depth >= 1
    requires w == s.at + |m| + |a| + 2 && d == e + |m| + 3
    requires Spells(text, s.at, n, Opening(m, a)) && Spells(text, e, n, Closing(m))
    requires var p := Below(s, m, w, q); Passes(text, n, q, p, p.(at := e))
    ensures Passes(text, n, q, s, s.(at := d))
  {
    if Matches(q, m) {
      ScanOwn(text, n, m, a, q, s, w, e, d);
    } else {
      ScanOther(text, n, m, a, q, s, w, e, d);
    }
  }

  /** The scan among the children of `m`, at `w`, in a section that has begun. */
  function Below(s: State, m: Name, w: nat, q: Query): State {
    State(w, s.begin, s.depth + if Matches(q, m) then 1 else 0)
  }

  /** Inside a section a document leaves the scan as it was, since it closes every element it opens. */
  lemma {:induction false} ScanForest(text: seq<char>, n: nat, f: Forest, q: Query, s: State, e: nat)
    requires n <= |text| && Shows(text, s.at, n, f, q) && e == s.at + Size(f)
    requires s.begin.To? && s.depth >= 1
    ensures Passes(text, n, q, s, s.(at := e))
    decreases f
  {
    match f
    case Empty =>
    case Chars(t, next) =>
      var p := s.(at := s.at + |t|);
      ScanChars(text, n, t, q, s, p.at);
      ScanForest(text, n, next, q, p, e);
      PassesThen(text, n, q, s, p, s.(at := e));
    case Element(m, a, c, next) =>
      var w := s.at + |m| + |a| + 2;
      var v := w + Size(c);
      var d := v + |m| + 3;
      ShownElement(text, s.at, w, v, d, n, m, a, c, next, q);
      ScanForest(text, n, c, q, Below(s, m, w, q), v);
      ScanElement(text, n, m, a, q, s, w, v, d);
      ScanForest(text, n, next, q, s.(at := d), e);
      PassesThen(text, n, q, s, s.(at := d), s.(at := e));
  }

  /** Outside it does so if it has no element that is asked for. */
  lemma {:induction false} ScanNothing(text: seq<char>, n: nat, f: Forest, q: Query, s: State, e: nat)
    requires n <= |text| && Shows(text, s.at, n, f, q) && e == s.at + Size(f) && !Has(f, q)
    ensures Passes(text, n, q, s, s.(at := e))
    decreases f
  {
    match f
    case Empty =>
    case Chars(t, next) =>
      var p := s.(at := s.at + |t|);
      ScanChars(text, n, t, q, s, p.at);
      ScanNothing(text, n, next, q, p, e);
      PassesThen(text, n, q, s, p, s.(at := e));
    case Element(m, a, c, next) =>
      var w := s.at + |m| + |a| + 2;
      var v := w + Size(c);
      var d := v + |m| + 3;
      ShownElement(text, s.at, w, v, d, n, m, a, c, next, q);
      ScanNothing(text, n, c, q, s.(at := w), v);
      ScanOther(text, n, m, a, q, s, w, v, d);
      ScanNothing(text, n, next, q, s.(at := d), e);
      PassesThen(text, n, q, s, s.(at := d), s.(at := e));
  }

  /** Before the first tag that is asked for, at `i`. */
  function Outside(i: nat): State {
    State(i, Null, 0)
  }

  /** The section found begins at `b`, inside an opening tag that ends in front of `w`, and holds
      the document `c`. */
  ghost predicate SectionShows(text: seq<char>, i: nat, n: nat, c: Forest, q: Query, b: nat, w: nat)
    requires n <= |text|
  {
    && 0 < b <= w && w + Size(c) <= n && Shows(text, w, n, c, q)
    && text[w - 1] == '>' && (forall p | b - 1 <= p < w - 1 :: text[p] != '>')
    && Gives(text, n, q, Outside(i), Found(b, To(w + Size(c)), Null))
  }

  lemma OpeningEnds(text: seq<char>, i: nat, n: nat, m: Name, a: Attributes, w: nat)
    requires n <= |text| && Spells(text, i, n, Opening(m, a)) && w == i + |m| + |a| + 2
    ensures i < w <= n && text[w - 1] == '>' && forall p | i < p < w - 1 :: text[p] != '>'
  {
    var t := m + a + ">";
    BodyOf(m, a);
    SpellsParts(text, i, n, "<", t);
    SpelledAt(text, i + 1, n, t, |t| - 1);
    forall p | i < p < w - 1 ensures text[p] != '>' {
      SpelledAt(text, i + 1, n, t, p - i - 1);
    }
  }

  lemma SectionEndsAt(text: seq<char>, n: nat, m: Name, q: Query, s: State)
    requires n <= |text| && Matches(q, m) && Spells(text, s.at, n, Closing(m)) && Stem(q) != ""
    requires s.depth == 1 && s.begin.To? && s.begin.at < n
    ensures Gives(text, n, q, s, Found(s.begin.at, To(s.at), Null))
  {
    ClosingKind(text, s.at, n, m, q);
  }

  lemma GivesBefore(text: seq<char>, n: nat, q: Query, s: State, s': State, r: Section)
    requires n <= |text| && Passes(text, n, q, s, s') && Gives(text, n, q, s', r)
    ensures Gives(text, n, q, s, r)
  {}

  lemma OwnGives(text: seq<char>, i: nat, n: nat, m: Name, a: Attributes, c: Forest, q: Query, b: nat, w: nat, v: nat)
    requires n <= |text| && Matches(q, m) && Readable(q, m, a)
    requires w == i + |m| + |a| + 2 && b == i + 1 + |Stem(q)| && v == w + Size(c) && b < n
    requires Spells(text, i, n, Opening(m, a)) && Shows(text, w, n, c, q) && Spells(text, v, n, Closing(m))
    ensures Gives(text, n, q, Outside(i), Found(b, To(v), Null))
  {
    var p, e, r := State(w, To(b), 1), State(v, To(b), 1), Found(b, To(v), Null);
    assert p == Inside(Outside(i), q, w) && e == p.(at := v);
    OwnOpening(text, n, m, a, q, Outside(i), w);
    ScanForest(text, n, c, q, p, v);
    SectionEndsAt(text, n, m, q, e);
    GivesBefore(text, n, q, p, e, r);
    GivesBefore(text, n, q, Outside(i), p, r);
  }

  lemma StemFits(q: Query, m: Name, a: Attributes)
    requires Matches(q, m) && Readable(q, m, a)
    ensures 0 < |Stem(q)| <= |m| + |a| + 1
  {
    BodyStarts(q, m, a);
    StemIs(q);
  }

  lemma OwnSection(text: seq<char>, i: nat, n: nat, m: Name, a: Attributes, c: Forest, q: Query, b: nat, w: nat)
    requires n <= |text| && Matches(q, m) && Readable(q, m, a)
    requires w == i + |m| + |a| + 2 && b == i + 1 + |Stem(q)|
    requires Spells(text, i, n, Opening(m, a)) && Shows(text, w, n, c, q) && Spells(text, w + Size(c), n, Closing(m))
    ensures SectionShows(text, i, n, c, q, b, w)
  {
    StemFits(q, m, a);
    OpeningEnds(text, i, n, m, a, w);
    assert w + Size(c) < n by { ClosingKind(text, w + Size(c), n, m, q); }
    OwnGives(text, i, n, m, a, c, q, b, w, w + Size(c));
  }

  /** Unless a document starts with an element that is asked for, the scan comes to the part
      `g` that has the first one. */
  lemma NextPlace(text: seq<char>, i: nat, n: nat, f: Forest, q: Query) returns (j: nat, g: Forest)
    requires n <= |text| && Shows(text, i, n, f, q) && Has(f, q)
    requires f.Element? ==> !Matches(q, f.name)
    ensures g < f && Shows(text, j, n, g, q) && Has(g, q) && First(g, q) == First(f, q)
    ensures Passes(text, n, q, Outside(i), Outside(j))
  {
    match f
    case Chars(t, next) =>
      j, g := i + |t|, next;
      ScanChars(text, n, t, q, Outside(i), j);
    case Element(m, a, c, next) =>
      var w := i + |m| + |a| + 2;
      var v := w + Size(c);
      var d := v + |m| + 3;
      ShownElement(text, i, w, v, d, n, m, a, c, next, q);
      if Has(c, q) {
        j, g := w, c;
        OtherOpening(text, n, m, a, q, Outside(i), w);
      } else {
        j, g := d, next;
        ScanNothing(text, n, c, q, Outside(w), v);
        ScanOther(text, n, m, a, q, Outside(i), w, v, d);
      }
  }

  lemma SectionBehind(text: seq<char>, i: nat, j: nat, n: nat, c: Forest, q: Query, b: nat, w: nat)
    requires n <= |text| && SectionShows(text, j, n, c, q, b, w) && Passes(text, n, q, Outside(i), Outside(j))
    ensures SectionShows(text, i, n, c, q, b, w)
  {
    GivesBefore(text, n, q, Outside(i), Outside(j), Found(b, To(w + Size(c)), Null));
  }

  lemma OwnSectionOf(text: seq<char>, i: nat, n: nat, f: Forest, q: Query, b: nat, w: nat)
    requires n <= |text| && Shows(text, i, n, f, q) && f.Element? && Matches(q, f.name)
    requires b == i + 1 + |Stem(q)| && w == i + |f.name| + |f.attributes| + 2
    ensures SectionShows(text, i, n, f.children, q, b, w)
  {
    OwnSection(text, i, n, f.name, f.attributes, f.children, q, b, w);
  }

  /** The section of a query is the first element that is asked for. */
  lemma {:induction false} SectionOfForest(text: seq<char>, i: nat, n: nat, f: Forest, q: Query)
    returns (b: nat, w: nat)
    requires n <= |text| && Shows(text, i, n, f, q) && Has(f, q)
    ensures SectionShows(text, i, n, First(f, q), q, b, w)
    decreases f
  {
    if f.Element? && Matches(q, f.name) {
      b, w := i + 1 + |Stem(q)|, i + |f.name| + |f.attributes| + 2;
      OwnSectionOf(text, i, n, f, q, b, w);
    } else {
      var j, g := NextPlace(text, i, n, f, q);
      b, w := SectionOfForest(text, j, n, g, q);
      SectionBehind(text, i, j, n, First(f, q), q, b, w);
    }
  }

  // ----- the field of a query -----

  lemma SpelledSlice(text: seq<char>, i: nat, n: nat, x: string)
    requires n <= |text| && Spells(text, i, n, x)
    ensures text[i..i + |x|] == x
  {
    forall j | 0 <= j < |x| ensures text[i..i + |x|][j] == x[j] {
      SpelledAt(text, i, n, x, j);
    }
  }

  lemma SectionFound(text: seq<char>, n: nat, q: Query, r: Section)
    requires n <= |text| && Gives(text, n, q, Outside(0), r)
    ensures SectionOf(text, 0, n, QueryTags(q)) == r
  {
    ScanIsSectionOf(text, 0, n, QueryTags(q));
  }

  lemma ShownSlice(text: seq<char>, i: nat, n: nat, f: Forest, q: Query)
    requires n <= |text| && Shows(text, i, n, f, q)
    ensures i + Size(f) <= n && text[i..i + Size(f)] == Render(f)
  {
    ShownIsSpelled(text, i, n, f, q);
    SpelledSlice(text, i, n, Render(f));
  }

  lemma FieldOfSection(text: string, c: Forest, q: Query, b: nat, w: nat)
    requires SectionShows(text, 0, |text|, c, q, b, w)
    ensures FieldDefined(text, 0, |text|, QueryTags(q)) && FieldOf(text, 0, |text|, QueryTags(q)) == Render(c)
  {
    SectionFound(text, |text|, q, Found(b, To(w + Size(c)), Null));
    FieldBetween(text, |text|, QueryTags(q), b, w, w + Size(c));
    ShownSlice(text, w, |text|, c, q);
  }

  /** The rendered children of the first element that is asked for. */
  function Content(f: Forest, q: Query): string {
    if Has(f, q) then Render(First(f, q)) else ""
  }

  /** The source's own demands are met, and the field is that content. */
  predicate Finds(f: Forest, q: Query) {
    && FieldDefined(Render(f), 0, |Render(f)|, QueryTags(q))
    && ExtractField(Render(f), "<" + Stem(q)) == Content(f, q)
  }

  lemma TagsOfQuery(q: Query)
    ensures FieldTags("<" + Stem(q)) == QueryTags(q)
  {}

  /** In every document whose tags a query can be read off, its field is exactly the rendered content
      of the first element that is asked for, however deeply such elements nest inside it; it is
      empty when there is none. */
  lemma FieldIsFirstElement(f: Forest, q: Query)
    requires AllReadable(f, q)
    ensures Finds(f, q)
  {
    var text, n := Render(f), |Render(f)|;
    TagsOfQuery(q);
    SpellsItself(text);
    SpelledIsShown(text, 0, n, f, q);
    if Has(f, q) {
      var b, w := SectionOfForest(text, 0, n, f, q);
      FieldOfSection(text, First(f, q), q, b, w);
    } else {
      ScanNothing(text, n, f, q, Outside(0), n);
      GivesBefore(text, n, q, Outside(0), Outside(n), NotFound);
      SectionFound(text, n, q, NotFound);
    }
  }

  // ----- whole tags, and starts of names -----

  predicate NoAttributes(f: Forest) {
    match f
    case Empty => true
    case Chars(_, next) => NoAttributes(next)
    case Element(m, a, c, next) => a == "" && NoAttributes(c) && NoAttributes(next)
  }

  lemma {:induction false} PlainIsReadable(f: Forest, q: Query)
    requires NoAttributes(f) && Stem(q) != ""
    ensures AllReadable(f, q)
    decreases f
  {
    match f
    case Empty =>
    case Chars(_, next) => PlainIsReadable(next, q);
    case Element(m, a, c, next) =>
      assert m + a == m;
      PlainIsReadable(c, q);
      PlainIsReadable(next, q);
  }

  /** An opening tag without its `<` and `>`. */
  datatype OpeningTag = OpeningTag(name: Name, attributes: Attributes)

  function OpeningsOf(f: Forest): set<OpeningTag> {
    match f
    case Empty => {}
    case Chars(_, next) => OpeningsOf(next)
    case Element(m, a, c, next) => {OpeningTag(m, a)} + OpeningsOf(c) + OpeningsOf(next)
  }

  lemma {:induction false} OpeningsAreReadable(f: Forest, q: Query)
    requires forall o | o in OpeningsOf(f) :: Readable(q, o.name, o.attributes)
    ensures AllReadable(f, q)
    decreases f
  {
    match f
    case Empty =>
    case Chars(_, next) => OpeningsAreReadable(next, q);
    case Element(m, a, c, next) =>
      assert OpeningTag(m, a) in OpeningsOf(f);
      OpeningsAreReadable(c, q);
      OpeningsAreReadable(next, q);
  }

  /** The smallest document that shows what an opening tag does. */
  function Sample(m: Name, a: Attributes): (f: Forest)
    ensures Render(f) == Opening(m, a) + "x" + Closing(m)
    ensures NamesOf(f) == {m} && OpeningsOf(f) == {OpeningTag(m, a)}
    ensures forall q :: Content(f, q) == if Matches(q, m) then "x" else ""
  {
    var c := Chars("x", Empty);
    assert Render(Empty) == "" && Render(c) == "x" + "" == "x";
    assert forall q :: !Has(c, q);
    Element(m, a, c, Empty)
  }

  /** The opening tag of an `x` and what the scan makes of it up to the closing tag. */
  lemma AroundX(text: string, n: nat, m: Name, a: Attributes, q: Query) returns (w: nat)
    requires text == Opening(m, a) + "x" + Closing(m) && n == |text|
    ensures w == |m| + |a| + 2 && n == w + |m| + 4 && text[w..] == "x" + Closing(m)
    ensures Spells(text, 0, n, Opening(m, a)) && Spells(text, w + 1, n, Closing(m))
    ensures forall s: State | s.at == w :: Passes(text, n, q, s, s.(at := w + 1))
  {
    w := |m| + |a| + 2;
    SpellsItself(text);
    SpellsParts(text, 0, n, Opening(m, a) + "x", Closing(m));
    SpellsParts(text, 0, n, Opening(m, a), "x");
    forall s: State | s.at == w ensures Passes(text, n, q, s, s.(at := w + 1)) {
      ScanChars(text, n, "x", q, s, w + 1);
    }
  }

  /** Only the closing tag is found. */
  lemma OnlyClosingFound(text: string, n: nat, m: Name, a: Attributes, q: Query)
    requires text == Opening(m, a) + "x" + Closing(m) && n == |text|
    requires !Opens(q, m, a) && Matches(q, m) && Stem(q) != ""
    ensures SectionOf(text, 0, n, QueryTags(q)) == NotFound
  {
    var w := AroundX(text, n, m, a, q);
    OpeningKind(text, 0, n, m, a, q);
    BodyOf(m, a);
    OtherTag(text, n, m + a + ">", q, Outside(0), w);
    ClosingKind(text, w + 1, n, m, q);
    GivesBefore(text, n, q, Outside(w), Outside(w + 1), NotFound);
    GivesBefore(text, n, q, Outside(0), Outside(w), NotFound);
    SectionFound(text, n, q, NotFound);
  }

  /** The opening tag is found, and the scan is in front of the closing tag. */
  lemma AfterOpening(text: string, n: nat, m: Name, a: Attributes, q: Query, b: nat, w: nat)
    requires text == Opening(m, a) + "x" + Closing(m) && n == |text|
    requires Opens(q, m, a) && b == 1 + |Stem(q)| && w == |m| + |a| + 2
    ensures b <= w && Passes(text, n, q, Outside(0), State(w + 1, To(b), 1))
  {
    var _ := AroundX(text, n, m, a, q);
    var p := State(b, To(b), 1);
    OpeningKind(text, 0, n, m, a, q);
    BodyOf(m, a);
    BodyStarts(q, m, a);
    PassesStep(text, n, q, Outside(0), p);
    OwnTag(text, n, "<", m + a + ">", q, Outside(0), p, w);
    PassesThen(text, n, q, Outside(0), p.(at := w), p.(at := w + 1));
  }

  /** The empty start takes a closing tag for an opening one. */
  lemma ClosingOpens(text: seq<char>, n: nat, m: Name, q: Query, s: State)
    requires n <= |text| && Spells(text, s.at, n, Closing(m)) && n == s.at + |m| + 3
    requires Stem(q) == "" && s.begin.To?
    ensures Passes(text, n, q, s, State(n, s.begin, s.depth + 1))
  {
    var p, t := State(s.at + 1, s.begin, s.depth + 1), "/" + (m + ">");
    assert Closing(m) == "<" + t && '<' !in t;
    SpellsParts(text, s.at, n, "<", t);
    SpelledAt(text, s.at, n, Closing(m), 0);
    PassesStep(text, n, q, s, p);
    ScanChars(text, n, t, q, p, n);
    PassesThen(text, n, q, s, p, p.(at := n));
  }

  /** Only the opening tag is found, or the closing tag is taken for one. */
  lemma NoClosingFound(text: string, n: nat, m: Name, a: Attributes, q: Query, b: nat)
    requires text == Opening(m, a) + "x" + Closing(m) && n == |text| && b == 1 + |Stem(q)|
    requires Opens(q, m, a) && (Stem(q) == "" || !Matches(q, m))
    ensures SectionOf(text, 0, n, QueryTags(q)) == Found(b, Null, Null)
  {
    var w := AroundX(text, n, m, a, q);
    var s := State(w + 1, To(b), 1);
    var e := State(n, To(b), if Stem(q) == "" then 2 else 1);
    AfterOpening(text, n, m, a, q, b, w);
    if Stem(q) == "" { ClosingOpens(text, n, m, q, s); } else { OtherClosing(text, n, m, q, s, n); }
    GivesBefore(text, n, q, s, e, Found(b, Null, Null));
    GivesBefore(text, n, q, Outside(0), s, Found(b, Null, Null));
    SectionFound(text, n, q, Found(b, Null, Null));
  }

  lemma StemEndsInTag(text: seq<char>, n: nat, m: Name, a: Attributes, q: Query, b: nat, w: nat)
    requires n <= |text| && Spells(text, 0, n, Opening(m, a)) && Opens(q, m, a)
    requires b == 1 + |Stem(q)| && w == |m| + |a| + 2
    ensures b <= w <= n && text[w - 1] == '>' && forall p | b - 1 <= p < w - 1 :: text[p] != '>'
  {
    OpeningEnds(text, 0, n, m, a, w);
    BodyOf(m, a);
    BodyStarts(q, m, a);
    SpelledAt(text, 0, n, Opening(m, a), 0);
  }

  /** Then the field runs on to the end of the text. */
  lemma FieldRunsOn(text: string, m: Name, a: Attributes, q: Query)
    requires text == Opening(m, a) + "x" + Closing(m)
    requires Opens(q, m, a) && (Stem(q) == "" || !Matches(q, m))
    ensures FieldDefined(text, 0, |text|, QueryTags(q)) && ExtractField(text, "<" + Stem(q)) == "x" + Closing(m)
  {
    var n, b := |text|, 1 + |Stem(q)|;
    var w := AroundX(text, n, m, a, q);
    NoClosingFound(text, n, m, a, q, b);
    StemEndsInTag(text, n, m, a, q, b, w);
    FieldToEnd(text, n, QueryTags(q), b, w);
    TagsOfQuery(q);
  }

  /** A query that cannot be read off an element misses it, although the source is defined. */
  lemma UnreadableConfuses(m: Name, a: Attributes, q: Query)
    requires !Readable(q, m, a)
    ensures FieldDefined(Render(Sample(m, a)), 0, |Render(Sample(m, a))|, QueryTags(q))
    ensures !Finds(Sample(m, a), q)
  {
    var text := Render(Sample(m, a));
    if Opens(q, m, a) {
      FieldRunsOn(text, m, a, q);
    } else {
      OnlyClosingFound(text, |text|, m, a, q);
      TagsOfQuery(q);
    }
  }

  /** A query finds the first element that is asked for, in every document whose opening tags are
      from a set, if and only if it can be read off each of them. */
  lemma ReadsExactly(q: Query, openings: set<OpeningTag>)
    ensures (forall o | o in openings :: Readable(q, o.name, o.attributes))
       <==> forall f | OpeningsOf(f) <= openings :: Finds(f, q)
  {
    if forall o | o in openings :: Readable(q, o.name, o.attributes) {
      forall f | OpeningsOf(f) <= openings ensures Finds(f, q) {
        OpeningsAreReadable(f, q);
        FieldIsFirstElement(f, q);
      }
    } else {
      var o :| o in openings && !Readable(q, o.name, o.attributes);
      UnreadableConfuses(o.name, o.attributes, q);
      assert OpeningsOf(Sample(o.name, o.attributes)) <= openings;
    }
  }

  /** A whole tag can be read off the elements of other names, unless their names and attributes make
      the same tag, and off those of its own name that have no attributes. */
  lemma WholeTagReadable(name: Name, m: Name, a: Attributes)
    ensures Readable(Whole(name), m, a) <==> (if m == name then a == "" else m + a != name)
  {
    assert m == name && m + a == name ==> |m + a| == |m|;
  }

  /** In a document without attributes `<name>` gives the content of the first element of that name. */
  lemma FieldOfWholeTag(f: Forest, name: Name)
    requires NoAttributes(f)
    ensures ExtractField(Render(f), Opening(name, "")) == Content(f, Whole(name))
  {
    PlainIsReadable(f, Whole(name));
    FieldIsFirstElement(f, Whole(name));
    assert name + "" + ">" == name + ">";
  }

  // ----- starts -----

  function FrontOf(name: Name): Front {
    assert name != "" ==> name[0] in name;
    name
  }

  /** A start that reaches into no attributes: it has no whitespace, or only behind a `/`, which no name
      holds. */
  predicate StaysInName(front: Front) {
    front != "" && forall i | 0 <= i < |front| && IsSpace(front[i]) :: '/' in front[..i]
  }

  lemma StartReaches(front: Front, m: Name, a: Attributes)
    requires front <= m + a && |front| > |m|
    ensures m < front && IsSpace(front[|m|])
  {
    assert front[|m|] == (m + a)[|m|] == a[0];
    assert front[..|m|] == (m + a)[..|m|] == m;
  }

  lemma StartReadable(front: Front, m: Name, a: Attributes)
    requires front != "" && (m < front ==> !IsSpace(front[|m|]))
    ensures Readable(Start(front), m, a)
  {
    if front <= m { assert m + a == front + (m[|front|..] + a); }
    if front <= m + a {
      if |front| > |m| { StartReaches(front, m, a); }
      assert |front| <= |m| ==> front == (m + a)[..|front|] == m[..|front|];
    }
  }

  lemma StartUnreadable(front: Front, m: Name) returns (a: Attributes)
    requires m < front && IsSpace(front[|m|])
    ensures !Readable(Start(front), m, a) && m + a == front
  {
    a := front[|m|..];
    assert m + a == front;
  }

  /** `<front` gives the content of the first element whose name starts so, in every document with any
      attributes, if and only if the start stays inside a name. */
  lemma FieldOfStart(front: Front)
    ensures StaysInName(front) <==> forall f :: Finds(f, Start(front))
  {
    if StaysInName(front) {
      forall f ensures Finds(f, Start(front)) {
        forall o | o in OpeningsOf(f) ensures Readable(Start(front), o.name, o.attributes) {
          assert o.name < front ==> front[..|o.name|] == o.name;
          StartReadable(front, o.name, o.attributes);
        }
        OpeningsAreReadable(f, Start(front));
        FieldIsFirstElement(f, Start(front));
      }
    } else if front == "" {
      UnreadableConfuses("b", "", Start(front));
    } else {
      var i :| 0 <= i < |front| && IsSpace(front[i]) && '/' !in front[..i];
      var m: Name := front[..i];
      var a := StartUnreadable(front, m);
      UnreadableConfuses(m, a, Start(front));
    }
  }

  function NamesOf(f: Forest): set<Name> {
    match f
    case Empty => {}
    case Chars(_, next) => NamesOf(next)
    case Element(m, a, c, next) => {m} + NamesOf(c) + NamesOf(next)
  }

  lemma {:induction false} StartIsName(f: Forest, name: Name)
    requires forall m | m in NamesOf(f) :: name <= m ==> m == name
    ensures Has(f, Start(FrontOf(name))) == Has(f, Whole(name))
    ensures Has(f, Whole(name)) ==> First(f, Start(FrontOf(name))) == First(f, Whole(name))
    decreases f
  {
    match f
    case Empty =>
    case Chars(_, next) =>
      assert NamesOf(f) == NamesOf(next);
      StartIsName(next, name);
    case Element(m, a, c, next) =>
      assert m in NamesOf(f) && NamesOf(c) <= NamesOf(f) && NamesOf(next) <= NamesOf(f);
      StartIsName(c, name);
      StartIsName(next, name);
  }

  lemma {:induction false} NamesAreReadable(f: Forest, front: Front)
    requires forall m | m in NamesOf(f) :: front != "" && (m < front ==> !IsSpace(front[|m|]))
    ensures AllReadable(f, Start(front))
    decreases f
  {
    match f
    case Empty =>
    case Chars(_, next) =>
      assert NamesOf(f) == NamesOf(next);
      NamesAreReadable(next, front);
    case Element(m, a, c, next) =>
      assert m in NamesOf(f) && NamesOf(c) <= NamesOf(f) && NamesOf(next) <= NamesOf(f);
      StartReadable(front, m, a);
      NamesAreReadable(c, front);
      NamesAreReadable(next, front);
  }

  /** `<name` tells elements of that name from those of the name `m`: it is not empty, it does not
      start a longer name, and no attributes of a shorter one complete it. */
  predicate Tells(name: Name, m: Name) {
    name != "" && (name <= m ==> m == name) && (m < name ==> !IsSpace(name[|m|]))
  }

  lemma UntoldConfuses(name: Name, m: Name) returns (f: Forest)
    requires !Tells(name, m)
    ensures NamesOf(f) == {m} && ExtractField(Render(f), "<" + name) != Content(f, Whole(name))
  {
    var q, a: Attributes := Start(FrontOf(name)), "";
    if name != "" && m < name {
      a := StartUnreadable(FrontOf(name), m);
    }
    f := Sample(m, a);
    if Readable(q, m, a) {
      FieldIsFirstElement(f, q);
    } else {
      FieldRunsOn(Render(f), m, a, q);
    }
  }

  /** `<name` gives the first element of exactly that name, in every document whose elements have
      names from a set, if and only if it tells its elements from all those of the set. */
  lemma StartsOfNamesExactly(name: Name, names: set<Name>)
    ensures (forall m | m in names :: Tells(name, m))
       <==> forall f | NamesOf(f) <= names :: ExtractField(Render(f), "<" + name) == Content(f, Whole(name))
  {
    if forall m | m in names :: Tells(name, m) {
      forall f | NamesOf(f) <= names ensures ExtractField(Render(f), "<" + name) == Content(f, Whole(name)) {
        NamesAreReadable(f, FrontOf(name));
        FieldIsFirstElement(f, Start(FrontOf(name)));
        StartIsName(f, name);
      }
    } else {
      var m :| m in names && !Tells(name, m);
      var f := UntoldConfuses(name, m);
      assert NamesOf(f) <= names;
    }
  }
}

/** What a middle tag changes: when the scanner that also looks for a middle tag finds the same
    section as the one that does not. */
module MiddleTags {
  import opened CStrings
  import opened Sections
  import opened SectionLaws

  /** `t` and the part of `m` behind `off` can stand at the same place of a text. */
  predicate Compatible(t: string, m: string, off: nat) {
    forall x | 0 <= x < |t| && off + x < |m| :: t[x] == m[off + x]
  }

  /** The text of `m` with `t` written at `off`, reaching behind it if need be. */
  function Overlay(m: string, t: string, off: nat): string
    requires off <= |m|
  {
    if off + |t| <= |m| then m else m[..off] + t
  }

  predicate StartsWith(w: string, tags: Tags) {
    Spells(w, 0, |w|, tags.open) || Spells(w, 0, |w|, tags.close)
  }

  /** The tag `t` cannot start inside a middle tag, or only where another tag is read first. */
  predicate StaysOut(t: string, tags: Tags, off: nat)
    requires off <= |tags.middle|
  {
    Compatible(t, tags.middle, off) ==> StartsWith(Overlay(tags.middle, t, off), tags)
  }

  /** No opening or closing tag can start inside a middle tag that is read. */
  predicate MiddleIsClear(tags: Tags) {
    forall off: nat | 0 < off < |tags.middle| :: StaysOut(tags.open, tags, off) && StaysOut(tags.close, tags, off)
  }

  /** It is so when the tags start with characters that do not occur later in the middle tag. */
  lemma LeadCharactersKeepClear(tags: Tags)
    requires tags.Proper() && tags.middle != ""
    requires tags.open[0] !in tags.middle[1..] && tags.close[0] !in tags.middle[1..]
    ensures MiddleIsClear(tags)
  {
    forall off: nat | 0 < off < |tags.middle|
      ensures StaysOut(tags.open, tags, off) && StaysOut(tags.close, tags, off)
    {
      assert tags.middle[off] == tags.middle[1..][off - 1];
      assert tags.open[0] != tags.middle[off + 0] && tags.close[0] != tags.middle[off + 0];
    }
  }

  // ----- clear tags: the sections agree -----

  lemma SpellsOverlay(text: seq<char>, i: nat, n: nat, m: string, t: string, off: nat)
    requires n <= |text| && off <= |m| && Spells(text, i, n, m) && Spells(text, i + off, n, t)
    ensures Compatible(t, m, off) && Spells(text, i, n, Overlay(m, t, off))
  {
    var w := Overlay(m, t, off);
    forall x | 0 <= x < |t| && off + x < |m| ensures t[x] == m[off + x] {
      assert Agrees(text, i + off, t, x) && Agrees(text, i, m, off + x);
    }
    forall j | 0 <= j < |w| ensures Agrees(text, i, w, j) {
      if off + |t| <= |m| || j < off {
        assert Agrees(text, i, m, j);
      } else {
        assert Agrees(text, i + off, t, j - off);
      }
    }
  }

  lemma ClearInside(text: seq<char>, i: nat, n: nat, tags: Tags, p: nat)
    requires tags.Proper() && MiddleIsClear(tags) && i < n <= |text|
    requires tags.At(text, i, n).Middle? && i <= p < i + |tags.middle|
    ensures Tags(tags.open, tags.close, "").At(text, p, n).Plain?
  {
    var off := p - i;
    if off > 0 {
      assert StaysOut(tags.open, tags, off) && StaysOut(tags.close, tags, off);
      forall t | (t == tags.open || t == tags.close) && Spells(text, p, n, t) ensures false {
        SpellsOverlay(text, i, n, tags.middle, t, off);
        var w := Overlay(tags.middle, t, off);
        if Spells(w, 0, |w|, tags.open) { SpellsWithin(text, i, n, w, 0, tags.open); }
        if Spells(w, 0, |w|, tags.close) { SpellsWithin(text, i, n, w, 0, tags.close); }
      }
    }
  }

  function NonMiddle(ts: seq<Tag>): seq<Tag> {
    if ts == [] then [] else (if ts[0].kind.Middle? then [] else [ts[0]]) + NonMiddle(ts[1..])
  }

  /** Characters that start no tag add nothing to the stream. */
  lemma {:induction false} LexSkip(text: seq<char>, i: nat, q: nat, n: nat, tags: Tags)
    requires tags.Proper() && i <= q <= n <= |text|
    requires forall p | i <= p < q :: tags.At(text, p, n).Plain?
    ensures Lex(text, i, n, tags) == Lex(text, q, n, tags)
    decreases q - i
  {
    if i < q { LexSkip(text, i + 1, q, n, tags); }
  }

  lemma NonMiddleCons(t: Tag, ts: seq<Tag>)
    ensures NonMiddle([t] + ts) == if t.kind.Middle? then NonMiddle(ts) else [t] + NonMiddle(ts)
  {
    assert ([t] + ts)[1..] == ts;
    assert [] + NonMiddle(ts) == NonMiddle(ts);
  }

  lemma ClearBehind(text: seq<char>, i: nat, n: nat, tags: Tags)
    requires tags.Proper() && MiddleIsClear(tags) && i < n <= |text| && tags.At(text, i, n).Middle?
    ensures var plain := Tags(tags.open, tags.close, "");
      Lex(text, i, n, plain) == Lex(text, i + |tags.middle|, n, plain)
  {
    var plain := Tags(tags.open, tags.close, "");
    forall p | i <= p < i + |tags.middle| ensures plain.At(text, p, n).Plain? {
      ClearInside(text, i, n, tags, p);
    }
    LexSkip(text, i, i + |tags.middle|, n, plain);
  }

  /** One tag or character further, the stream without its middle tags is still the plain one. */
  lemma PlainStep(text: seq<char>, i: nat, n: nat, tags: Tags, plain: Tags, ts: seq<Tag>, us: seq<Tag>)
    requires tags.Proper() && i < n <= |text| && plain == Tags(tags.open, tags.close, "") && tags.At(text, i, n).Plain?
    requires ts == Lex(text, i, n, tags) && us == Lex(text, i, n, plain)
    ensures ts == Lex(text, i + 1, n, tags) && us == Lex(text, i + 1, n, plain)
  {
    assert plain.At(text, i, n).Plain?;
  }

  lemma MiddleStep(text: seq<char>, i: nat, i': nat, n: nat, tags: Tags, plain: Tags, ts: seq<Tag>, us: seq<Tag>)
    requires tags.Proper() && MiddleIsClear(tags) && i < n <= |text| && plain == Tags(tags.open, tags.close, "")
    requires tags.At(text, i, n).Middle? && i' == i + |tags.middle|
    requires ts == Lex(text, i, n, tags) && us == Lex(text, i, n, plain)
    ensures i' <= n && ts == [Tag(Middle, i)] + Lex(text, i', n, tags) && us == Lex(text, i', n, plain)
  {
    ClearBehind(text, i, n, tags);
  }

  lemma OtherStep(text: seq<char>, i: nat, n: nat, tags: Tags, plain: Tags, k: Kind, ts: seq<Tag>, us: seq<Tag>)
    requires tags.Proper() && i < n <= |text| && plain == Tags(tags.open, tags.close, "")
    requires k == tags.At(text, i, n) && (k.Open? || k.Close?)
    requires ts == Lex(text, i, n, tags) && us == Lex(text, i, n, plain)
    ensures ts == [Tag(k, i)] + Lex(text, i + tags.Width(k), n, tags)
    ensures us == [Tag(k, i)] + Lex(text, i + tags.Width(k), n, plain)
  {
    assert plain.At(text, i, n) == k && plain.Width(k) == tags.Width(k);
  }

  /** Without its middle tags the stream is the one that `mark_section` reads. */
  lemma {:induction false} LexAgrees(text: seq<char>, i: nat, n: nat, tags: Tags, plain: Tags,
                                     ts: seq<Tag>, us: seq<Tag>)
    requires tags.Proper() && MiddleIsClear(tags) && i <= n <= |text| && plain == Tags(tags.open, tags.close, "")
    requires ts == Lex(text, i, n, tags) && us == Lex(text, i, n, plain)
    ensures NonMiddle(ts) == us
    decreases n - i
  {
    if i < n {
      var k := tags.At(text, i, n);
      var i' := i + tags.Width(k);
      var ts', us' := Lex(text, i', n, tags), Lex(text, i', n, plain);
      LexAgrees(text, i', n, tags, plain, ts', us');
      match k
      case Plain => PlainStep(text, i, n, tags, plain, ts, us);
      case Middle =>
        MiddleStep(text, i, i', n, tags, plain, ts, us);
        NonMiddleCons(Tag(k, i), ts');
      case _ =>
        OtherStep(text, i, n, tags, plain, k, ts, us);
        NonMiddleCons(Tag(k, i), ts');
    }
  }

  lemma {:induction false} CloseOfNonMiddle(ts: seq<Tag>, d: nat)
    requires d >= 1
    ensures CloseOf(NonMiddle(ts), d) == CloseOf(ts, d)
    decreases |ts|
  {
    if ts != [] {
      assert NonMiddle(ts) == if ts[0].kind.Middle? then NonMiddle(ts[1..]) else [ts[0]] + NonMiddle(ts[1..]);
      if !(ts[0].kind.Close? && d == 1) {
        CloseOfNonMiddle(ts[1..], d + Step(ts[0].kind));
      }
    }
  }

  lemma {:induction false} SectionInNonMiddle(ts: seq<Tag>, n: nat, tags: Tags)
    ensures var r, q := SectionIn(ts, n, tags), SectionIn(NonMiddle(ts), n, tags);
      && (r.Found? <==> q.Found?)
      && (r.Found? ==> r.begin == q.begin && r.end == q.end)
  {
    if ts != [] {
      if ts[0].kind.Middle? {
        SectionInNonMiddle(ts[1..], n, tags);
        assert NonMiddle(ts) == NonMiddle(ts[1..]);
      } else {
        assert NonMiddle(ts)[1..] == NonMiddle(ts[1..]);
        CloseOfNonMiddle(ts[1..], 1);
      }
    }
  }

  /** The two scanners find a section on the same texts, with the same beginning and end. */
  ghost predicate SameSection(text: seq<char>, i: nat, n: nat, tags: Tags) {
    tags.Proper() && i <= n <= |text| ==>
      var r, q := SectionOf(text, i, n, tags), SectionOf(text, i, n, Tags(tags.open, tags.close, ""));
      && (r.Found? <==> q.Found?)
      && (r.Found? ==> r.begin == q.begin && r.end == q.end)
  }

  lemma SectionsAgree(text: seq<char>, i: nat, n: nat, tags: Tags)
    requires tags.Proper() && MiddleIsClear(tags) && i <= n <= |text|
    ensures SameSection(text, i, n, tags)
  {
    var plain := Tags(tags.open, tags.close, "");
    LexAgrees(text, i, n, tags, plain, Lex(text, i, n, tags), Lex(text, i, n, plain));
    SectionInNonMiddle(Lex(text, i, n, tags), n, tags);
  }

  // ----- unclear tags: a text on which they differ -----

  /** A character that does not continue either tag behind `k` characters. */
  function Breaker(tags: Tags, k: nat): (z: char)
    ensures k < |tags.open| ==> z != tags.open[k]
    ensures k < |tags.close| ==> z != tags.close[k]
  {
    if !Continues(tags, k, 'a') then 'a' else if !Continues(tags, k, 'b') then 'b' else 'c'
  }

  predicate Continues(tags: Tags, k: nat, c: char) {
    (k < |tags.open| && tags.open[k] == c) || (k < |tags.close| && tags.close[k] == c)
  }

  /** An opening tag, a middle tag with `t` written into it, and characters that are part of no tag there. */
  function Witness(tags: Tags, t: string, off: nat): string
    requires off <= |tags.middle|
  {
    var w := Overlay(tags.middle, t, off);
    tags.open + w + seq(|tags.open| + 1, _ => Breaker(tags, |w|))
  }

  lemma OverlaySpells(m: string, t: string, off: nat)
    requires off <= |m| && Compatible(t, m, off)
    ensures var w := Overlay(m, t, off); Spells(w, 0, |w|, m) && Spells(w, off, |w|, t)
  {
    if off + |t| <= |m| {
      forall j | 0 <= j < |t| ensures m[off + j] == t[j] {}
      SpellsIntro(m, off, |m|, t);
    } else {
      var w := m[..off] + t;
      forall j | 0 <= j < |m| ensures w[j] == m[j] {
        if off <= j { assert w[j] == t[j - off] == m[off + (j - off)]; }
      }
      SpellsIntro(w, 0, |w|, m);
      SpellsIntro(w, off, |w|, t);
    }
  }

  lemma WitnessReads(tags: Tags, t: string, off: nat)
    requires tags.Proper() && 0 < off < |tags.middle| && !StaysOut(t, tags, off)
    ensures var text, a, w := Witness(tags, t, off), |tags.open|, Overlay(tags.middle, t, off);
      && |text| == a + |w| + a + 1
      && tags.At(text, 0, |text|).Open? && tags.At(text, a, |text|).Middle? && Spells(text, a + off, |text|, t)
  {
    var a, w := |tags.open|, Overlay(tags.middle, t, off);
    OverlaySpells(tags.middle, t, off);
    ReadsBetween(tags, w, seq(a + 1, _ => Breaker(tags, |w|)), t, off, a);
  }

  lemma ReadsBetween(tags: Tags, w: string, z: string, t: string, off: nat, a: nat)
    requires tags.Proper() && tags.middle != "" && a == |tags.open| && z != "" && z[0] == Breaker(tags, |w|)
    requires Spells(w, 0, |w|, tags.middle) && Spells(w, off, |w|, t) && !StartsWith(w, tags)
    ensures var text := tags.open + w + z;
      tags.At(text, 0, |text|).Open? && tags.At(text, a, |text|).Middle? && Spells(text, a + off, |text|, t)
  {
    var text := tags.open + w + z;
    var n := |text|;
    SpellsItself(text);
    SpellsParts(text, 0, n, tags.open + w, z);
    SpellsParts(text, 0, n, tags.open, w);
    SpellsWithin(text, a, n, w, 0, tags.middle);
    SpellsWithin(text, a, n, w, off, t);
    NotBroken(tags, text, a, w, tags.open);
    NotBroken(tags, text, a, w, tags.close);
  }

  lemma NotBroken(tags: Tags, text: seq<char>, a: nat, w: string, x: string)
    requires x == tags.open || x == tags.close
    requires a + |w| < |text| && text[a + |w|] == Breaker(tags, |w|)
    requires Spells(text, a, |text|, w)
    ensures Spells(text, a, |text|, x) ==> Spells(w, 0, |w|, x)
  {
    if Spells(text, a, |text|, x) {
      if |w| < |x| { SpelledAt(text, a, |text|, x, |w|); }
      forall j | 0 <= j < |x| ensures w[j] == x[j] {
        SpelledAt(text, a, |text|, x, j);
        SpelledAt(text, a, |text|, w, j);
      }
    }
  }

  /** The first place in `text[i..p + 1]` where a tag can be read. */
  lemma FirstPlace(text: seq<char>, i: nat, n: nat, p: nat, tags: Tags) returns (q: nat)
    requires tags.Proper() && i <= p < n <= |text| && !tags.At(text, p, n).Plain?
    ensures i <= q <= p && !tags.At(text, q, n).Plain?
    ensures forall x | i <= x < q :: tags.At(text, x, n).Plain?
  {
    q := i;
    while tags.At(text, q, n).Plain?
      invariant i <= q <= p && forall x | i <= x < q :: tags.At(text, x, n).Plain?
      decreases p - q
    {
      q := q + 1;
    }
  }

  lemma LexLater(text: seq<char>, i: nat, n: nat, tags: Tags)
    requires tags.Proper() && i < n <= |text| && tags.At(text, i, n).Middle?
    ensures var a := i + |tags.middle|;
      && a <= n && Lex(text, i, n, tags) == [Tag(Middle, i)] + Lex(text, a, n, tags)
      && forall u | u in Lex(text, a, n, tags) :: u.at >= a && !u.kind.Plain?
  {
    var a := i + |tags.middle|;
    LexSound(text, a, n, tags);
    forall u | u in Lex(text, a, n, tags) ensures u.at >= a && !u.kind.Plain? {
      assert Occurs(u, text, a, n, tags);
    }
  }

  /** A section that is looked for at a middle tag begins behind it. */
  lemma BeginsLater(text: seq<char>, i: nat, n: nat, tags: Tags)
    requires tags.Proper() && i < n <= |text| && tags.At(text, i, n).Middle?
    requires SectionOf(text, i, n, tags).Found?
    ensures SectionOf(text, i, n, tags).begin >= i + |tags.middle| + |tags.open|
  {
    LexLater(text, i, n, tags);
    var ts := Lex(text, i, n, tags);
    var f := SectionBegins(text, i, n, tags);
    assert f > 0 && ts[f] == ts[1..][f - 1];
    assert ts[f] in ts[1..];
  }

  lemma {:induction false} CloseOfLater(us: seq<Tag>, d: nat, a: nat)
    requires forall u | u in us :: u.at >= a
    ensures CloseOf(us, d).To? ==> CloseOf(us, d).at >= a
    decreases |us|
  {
    if us != [] {
      assert us[0] in us;
      if !(us[0].kind.Close? && d <= 1) { CloseOfLater(us[1..], d + Step(us[0].kind), a); }
    }
  }

  lemma FirstRead(text: seq<char>, i: nat, q: nat, n: nat, tags: Tags)
    requires tags.Proper() && i <= q < n <= |text| && !tags.At(text, q, n).Plain?
    requires forall x | i <= x < q :: tags.At(text, x, n).Plain?
    ensures Lex(text, i, n, tags) != [] && Lex(text, i, n, tags)[0] == Tag(tags.At(text, q, n), q)
  {
    LexSkip(text, i, q, n, tags);
  }

  lemma OpenInside(text: seq<char>, a: nat, q: nat, n: nat, tags: Tags, plain: Tags)
    requires tags.Proper() && plain == Tags(tags.open, tags.close, "") && a <= q < a + |tags.middle| <= n <= |text|
    requires tags.At(text, a, n).Middle? && plain.At(text, q, n).Open? && q + |tags.open| < n
    requires forall x | a <= x < q :: plain.At(text, x, n).Plain?
    ensures !SameSection(text, a, n, tags)
  {
    FirstRead(text, a, q, n, plain);
    if SectionOf(text, a, n, tags).Found? { BeginsLater(text, a, n, tags); }
  }

  lemma CloseInside(text: seq<char>, a: nat, q: nat, n: nat, tags: Tags, plain: Tags)
    requires tags.Proper() && plain == Tags(tags.open, tags.close, "") && a <= q < a + |tags.middle| <= n <= |text|
    requires tags.At(text, a, n).Middle? && plain.At(text, q, n).Close? && a == |tags.open|
    requires tags.At(text, 0, n).Open? && forall x | a <= x < q :: plain.At(text, x, n).Plain?
    ensures !SameSection(text, 0, n, tags)
  {
    FirstRead(text, a, q, n, plain);
    LexLater(text, a, n, tags);
    OpenedSection(text, n, tags);
    OpenedSection(text, n, plain);
    var us := Lex(text, a + |tags.middle|, n, tags);
    CloseOfLater(us, 1, a + |tags.middle|);
    assert ([Tag(Middle, a)] + us)[1..] == us;
  }

  /** Where a tag can start inside a middle tag, the sections differ on some text. */
  lemma SectionsDiffer(tags: Tags, t: string, off: nat) returns (text: seq<char>, i: nat)
    requires tags.Proper() && 0 < off < |tags.middle| && (t == tags.open || t == tags.close) && !StaysOut(t, tags, off)
    ensures i <= |text| && !SameSection(text, i, |text|, tags)
  {
    text := Witness(tags, t, off);
    var a, n, plain := |tags.open|, |text|, Tags(tags.open, tags.close, "");
    WitnessReads(tags, t, off);
    var q := FirstPlace(text, a, n, a + off, plain);
    if plain.At(text, q, n).Open? {
      i := a;
      OpenInside(text, a, q, n, tags, plain);
    } else {
      i := 0;
      CloseInside(text, a, q, n, tags, plain);
    }
  }

  /** `mark_section_and_middle` finds the same section as `mark_section` on every text if and
      only if no opening or closing tag can start inside a middle tag that is read. */
  lemma SectionsAgreeExactly(tags: Tags)
    requires tags.Proper() && tags.middle != ""
    ensures MiddleIsClear(tags) <==>
      forall text: seq<char>, i: nat, n: nat | i <= n <= |text| :: SameSection(text, i, n, tags)
  {
    if MiddleIsClear(tags) {
      forall text: seq<char>, i: nat, n: nat | i <= n <= |text| ensures SameSection(text, i, n, tags) {
        SectionsAgree(text, i, n, tags);
      }
    } else {
      var off: nat :| 0 < off < |tags.middle| && !(StaysOut(tags.open, tags, off) && StaysOut(tags.close, tags, off));
      var t := if StaysOut(tags.open, tags, off) then tags.close else tags.open;
      var text, i := SectionsDiffer(tags, t, off);
    }
  }

  // ----- an example -----

  /** Tags that are not clear, and a text on which the sections differ: here the middle tag hides a closing tag. */
  lemma SectionsMayDiffer()
    ensures SectionOf("(-)-)", 0, 5, Tags("(", ")", "-)-")) == Found(1, To(4), To(1))
    ensures SectionOf("(-)-)", 0, 5, Tags("(", ")", "")) == Found(1, To(2), Null)
  {
    HiddenClose();
    PlainClose();
  }

  lemma SpellsChar(text: seq<char>, i: nat, n: nat, c: char)
    requires i < n <= |text|
    ensures Spells(text, i, n, [c]) <==> text[i] == c
  {
    assert Agrees(text, i, [c], 0) <==> text[i] == c;
  }

  lemma KindsOf(tags: Tags)
    requires tags == Tags("(", ")", "-)-") || tags == Tags("(", ")", "")
    ensures var middle := tags.middle != "";
      forall p | 0 <= p < 5 :: tags.At("(-)-)", p, 5) ==
        if p == 0 then Open else if p == 1 && middle then Middle else if p == 2 || p == 4 then Close else Plain
  {
    var text := "(-)-)";
    forall p | 0 <= p < 5
      ensures Spells(text, p, 5, "(") <==> text[p] == '('
      ensures Spells(text, p, 5, ")") <==> text[p] == ')'
      ensures Spells(text, p, 5, "-)-") <==> p == 1
    {
      SpellsChar(text, p, 5, '(');
      SpellsChar(text, p, 5, ')');
      assert p == 2 ==> !Agrees(text, p, "-)-", 0);
      assert p == 0 ==> !Agrees(text, p, "-)-", 0);
    }
  }

  lemma HiddenClose()
    ensures SectionOf("(-)-)", 0, 5, Tags("(", ")", "-)-")) == Found(1, To(4), To(1))
  {
    var text, tags := "(-)-)", Tags("(", ")", "-)-");
    KindsOf(tags);
    LastTag(tags);
    var last := [Tag(Close, 4)];
    assert Lex(text, 1, 5, tags) == [Tag(Middle, 1)] + last;
    assert Lex(text, 0, 5, tags) == [Tag(Open, 0)] + ([Tag(Middle, 1)] + last);
    ClosedBehindMiddle([Tag(Open, 0), Tag(Middle, 1), Tag(Close, 4)], tags);
  }

  lemma LastTag(tags: Tags)
    requires tags == Tags("(", ")", "-)-")
    ensures Lex("(-)-)", 4, 5, tags) == [Tag(Close, 4)]
  {
    KindsOf(tags);
    assert [Tag(Close, 4)] + Lex("(-)-)", 5, 5, tags) == [Tag(Close, 4)];
  }

  lemma ClosedBehindMiddle(ts: seq<Tag>, tags: Tags)
    requires ts == [Tag(Open, 0), Tag(Middle, 1), Tag(Close, 4)] && tags == Tags("(", ")", "-)-")
    ensures SectionIn(ts, 5, tags) == Found(1, To(4), To(1))
  {
    assert ts[1..] == [Tag(Middle, 1), Tag(Close, 4)] && ts[1..][1..] == [Tag(Close, 4)];
    assert CloseOf([Tag(Close, 4)], 1) == To(4) && MiddleOf([Tag(Close, 4)], 1, To(1)) == To(1);
  }

  lemma PlainClose()
    ensures SectionOf("(-)-)", 0, 5, Tags("(", ")", "")) == Found(1, To(2), Null)
  {
    var text, tags := "(-)-)", Tags("(", ")", "");
    KindsOf(tags);
    var rest := Lex(text, 3, 5, tags);
    assert Lex(text, 2, 5, tags) == [Tag(Close, 2)] + rest;
    assert Lex(text, 0, 5, tags) == [Tag(Open, 0)] + ([Tag(Close, 2)] + rest);
    ClosedAtOnce(rest, tags);
  }

  lemma ClosedAtOnce(rest: seq<Tag>, tags: Tags)
    requires tags == Tags("(", ")", "")
    ensures SectionIn([Tag(Open, 0)] + ([Tag(Close, 2)] + rest), 5, tags) == Found(1, To(2), Null)
  {
    assert ([Tag(Open, 0)] + ([Tag(Close, 2)] + rest))[1..] == [Tag(Close, 2)] + rest;
  }
}

/** Finding a section between an opening and a closing tag that may nest, optionally with a
    middle tag that divides it.

    The scanner in the source is one loop with a counter. Here its result is described in
    two steps: the text is read as a stream of tags, and the stream is read by level.
    Texts are stretches `text[i..n]` of a buffer, and all places are places in the buffer. */
module Sections {
  import opened CStrings

  /** What a scanner meets: one of the tags, or a character that starts none of them. */
  datatype Kind = Open | Close | Middle | Plain

  datatype Tag = Tag(kind: Kind, at: nat)

  /** `x`, standing in the text at `i`, is right about its character `j`. */
  predicate Agrees(text: seq<char>, i: nat, x: string, j: nat)
    requires j < |x| && i + |x| <= |text|
  {
    text[i + j] == x[j]
  }

  /** `x` stands in the text at `i`, in front of `n`. */
  predicate Spells(text: seq<char>, i: nat, n: nat, x: string)
    requires n <= |text|
  {
    i + |x| <= n && forall j | 0 <= j < |x| :: Agrees(text, i, x, j)
  }

  lemma SpelledAt(text: seq<char>, i: nat, n: nat, x: string, j: nat)
    requires n <= |text| && Spells(text, i, n, x) && j < |x|
    ensures i + j < n && text[i + j] == x[j]
  {
    assert Agrees(text, i, x, j);
  }

  lemma SpellsIntro(text: seq<char>, i: nat, n: nat, x: string)
    requires i + |x| <= n <= |text| && forall j | 0 <= j < |x| :: text[i + j] == x[j]
    ensures Spells(text, i, n, x)
  {}

  lemma SpellsParts(text: seq<char>, i: nat, n: nat, x: string, y: string)
    requires n <= |text|
    ensures Spells(text, i, n, x + y) <==> Spells(text, i, n, x) && Spells(text, i + |x|, n, y)
  {
    if Spells(text, i, n, x + y) {
      forall j | 0 <= j < |x| ensures text[i + j] == x[j] { SpelledAt(text, i, n, x + y, j); }
      forall j | 0 <= j < |y| ensures text[i + |x| + j] == y[j] { SpelledAt(text, i, n, x + y, |x| + j); }
    }
    if Spells(text, i, n, x) && Spells(text, i + |x|, n, y) {
      forall j | 0 <= j < |x + y| ensures text[i + j] == (x + y)[j] {
        if j < |x| { SpelledAt(text, i, n, x, j); } else { SpelledAt(text, i + |x|, n, y, j - |x|); }
      }
    }
  }

  lemma SpellsItself(x: string)
    ensures Spells(x, 0, |x|, x)
  {}

  lemma SpellsWithin(text: seq<char>, i: nat, n: nat, w: string, p: nat, x: string)
    requires n <= |text| && Spells(text, i, n, w) && Spells(w, p, |w|, x)
    ensures Spells(text, i + p, n, x)
  {
    forall j | 0 <= j < |x| ensures text[i + p + j] == x[j] {
      SpelledAt(w, p, |w|, x, j);
      SpelledAt(text, i, n, w, p + j);
    }
  }

  /** An empty `middle` says that there is no middle tag. */
  datatype Tags = Tags(open: string, close: string, middle: string) {
    predicate Proper() {
      open != "" && close != ""
    }

    /** What the text at `i` starts with; the opening tag is tried first, the middle tag last. */
    function At(text: seq<char>, i: nat, n: nat): (k: Kind)
      requires n <= |text| && i < n
      ensures Width(k) <= n - i
      ensures open != "" && (k.Close? ==> close != "") ==> Width(k) > 0
    {
      if Spells(text, i, n, open) then Open
      else if Spells(text, i, n, close) then Close
      else if middle != "" && Spells(text, i, n, middle) then Middle
      else Plain
    }

    /** How far one step of the scan moves. */
    function Width(kind: Kind): nat {
      match kind
      case Open => |open|
      case Close => |close|
      case Middle => |middle|
      case Plain => 1
    }
  }

  /** The tags of a stretch of text, read greedily from left to right. */
  function Lex(text: seq<char>, i: nat, n: nat, tags: Tags): seq<Tag>
    requires tags.Proper() && i <= n <= |text|
    decreases n - i
  {
    if i == n then []
    else
      var k := tags.At(text, i, n);
      var rest := Lex(text, i + tags.Width(k), n, tags);
      if k.Plain? then rest else [Tag(k, i)] + rest
  }

  function Step(kind: Kind): int {
    match kind
    case Open => 1
    case Close => -1
    case _ => 0
  }

  /** Opening tags less closing tags. */
  function Level(ts: seq<Tag>): int {
    if ts == [] then 0 else Step(ts[0].kind) + Level(ts[1..])
  }

  /** Every closing tag has its opening tag in front of it, and the other way round. */
  ghost predicate Balanced(ts: seq<Tag>) {
    Level(ts) == 0 && forall j | 0 <= j <= |ts| :: Level(ts[..j]) >= 0
  }

  /** Where the closing tag is that ends level `d`. */
  function CloseOf(ts: seq<Tag>, d: nat): Pointer {
    if ts == [] then Null
    else if ts[0].kind.Close? && d <= 1 then To(ts[0].at)
    else CloseOf(ts[1..], d + Step(ts[0].kind))
  }

  /** Where the last middle tag on level 1 is, in front of the closing tag that ends level `d`;
      `m` when there is none. */
  function MiddleOf(ts: seq<Tag>, d: nat, m: Pointer): Pointer {
    if ts == [] || (ts[0].kind.Close? && d <= 1) then m
    else MiddleOf(ts[1..], d + Step(ts[0].kind), if ts[0].kind.Middle? && d == 1 then To(ts[0].at) else m)
  }

  function SkipMiddles(ts: seq<Tag>): seq<Tag> {
    if ts != [] && ts[0].kind.Middle? then SkipMiddles(ts[1..]) else ts
  }

  datatype Section = NotFound | Found(begin: nat, end: Pointer, middle: Pointer)

  /** The section that a tag stream describes, for a text that ends at `n`. */
  function SectionIn(ts: seq<Tag>, n: nat, tags: Tags): Section {
    var us := SkipMiddles(ts);
    if us == [] || us[0].kind.Close? || us[0].at + |tags.open| == n then NotFound
    else Found(us[0].at + |tags.open|, CloseOf(us[1..], 1), MiddleOf(us[1..], 1, Null))
  }

  /** Behind the opening tags that follow one another from `i` on. */
  function RunEnd(text: seq<char>, i: nat, n: nat, open: string): (e: nat)
    requires open != "" && i <= n <= |text|
    ensures i <= e <= n
    decreases n - i
  {
    if Spells(text, i, n, open) then RunEnd(text, i + |open|, n, open) else i
  }

  /** The opening tags of a run stand one behind the other at the given places, and none at the last. */
  ghost predicate IsRun(text: seq<char>, n: nat, open: string, places: seq<nat>)
    requires n <= |text|
  {
    && places != [] && places[|places| - 1] <= n && !Spells(text, places[|places| - 1], n, open)
    && forall j | 0 <= j < |places| - 1 :: Spells(text, places[j], n, open) && places[j + 1] == places[j] + |open|
  }

  /** There is such a run at every place. */
  lemma {:induction false} RunPlaces(text: seq<char>, i: nat, n: nat, open: string) returns (places: seq<nat>)
    requires open != "" && i <= n <= |text|
    ensures IsRun(text, n, open, places) && places[0] == i
    decreases n - i
  {
    if Spells(text, i, n, open) {
      var rest := RunPlaces(text, i + |open|, n, open);
      places := [i] + rest;
      assert forall j | 0 < j < |places| :: places[j] == rest[j - 1];
    } else {
      places := [i];
    }
  }

  lemma {:induction false} RunEnds(text: seq<char>, i: nat, n: nat, open: string, places: seq<nat>)
    requires open != "" && i <= n <= |text| && IsRun(text, n, open, places) && places[0] == i
    ensures RunEnd(text, i, n, open) == places[|places| - 1]
    decreases |places|
  {
    if |places| > 1 {
      var rest := places[1..];
      assert forall j | 0 <= j < |rest| :: rest[j] == places[j + 1];
      RunEnds(text, i + |open|, n, open, rest);
    }
  }

  /** An empty closing tag stands everywhere, so it ends a section behind its opening tags. */
  function RunSection(text: seq<char>, i: nat, n: nat, open: string): Section
    requires open != "" && i <= n <= |text|
  {
    if !Spells(text, i, n, open) || i + |open| == n then NotFound
    else
      var e := RunEnd(text, i, n, open);
      Found(i + |open|, if e < n then To(e) else Null, Null)
  }

  /** The section of a text. */
  function SectionOf(text: seq<char>, i: nat, n: nat, tags: Tags): Section
    requires tags.open != "" && i <= n <= |text|
  {
    if tags.Proper() then SectionIn(Lex(text, i, n, tags), n, tags) else RunSection(text, i, n, tags.open)
  }

  /** With an empty closing tag there is a section exactly if the text starts with an opening tag and
      goes on behind it; the section ends behind the run of opening tags, if anything stands there. */
  lemma SectionOfRun(text: seq<char>, i: nat, n: nat, tags: Tags, places: seq<nat>)
    requires tags.open != "" && tags.close == "" && i <= n <= |text|
    requires IsRun(text, n, tags.open, places) && places[0] == i
    ensures var e := places[|places| - 1];
      && (|places| == 1 || i + |tags.open| == n ==> SectionOf(text, i, n, tags) == NotFound)
      && (|places| > 1 && i + |tags.open| < n ==>
            SectionOf(text, i, n, tags) == Found(i + |tags.open|, if e < n then To(e) else Null, Null))
  {
    RunEnds(text, i, n, tags.open, places);
  }

  // ----- the scanners -----

  // The scan as a function of what the loop variables hold: the text at `i` is still to be
  // read, `b` is behind the first opening tag, `m` is the last middle tag on level 1.
  ghost function Scan(text: seq<char>, i: nat, n: nat, b: Pointer, m: Pointer, count: int, tags: Tags): Section
    requires tags.open != "" && i <= n <= |text|
    decreases n - i, if count > 0 then count else 0
  {
    if i == n then Marked(b, Null, m, n)
    else
      var k := tags.At(text, i, n);
      if k.Close? && count <= 1 then
        if count == 1 then Marked(b, To(i), m, n) else NotFound
      else
        var i' := i + tags.Width(k);
        var b' := if k.Open? && b.Null? then To(i') else b;
        var m' := if k.Middle? && count == 1 then To(i) else m;
        Scan(text, i', n, b', m', count + Step(k), tags)
  }

  ghost function Marked(b: Pointer, e: Pointer, m: Pointer, n: nat): Section {
    if b.Null? || b.at == n then NotFound else Found(b.at, e, m)
  }

  /** Behind the first opening tag the scan reads the rest of the tag stream by level. */
  lemma {:induction false} ScanInside(text: seq<char>, i: nat, n: nat, b: nat, m: Pointer, count: nat, tags: Tags)
    requires tags.Proper() && i <= n <= |text| && count >= 1
    ensures var ts := Lex(text, i, n, tags);
      Scan(text, i, n, To(b), m, count, tags) == Marked(To(b), CloseOf(ts, count), MiddleOf(ts, count, m), n)
    decreases n - i
  {
    if i < n {
      var k := tags.At(text, i, n);
      var i' := i + tags.Width(k);
      assert !k.Plain? ==> Lex(text, i, n, tags)[1..] == Lex(text, i', n, tags);
      if !(k.Close? && count == 1) {
        ScanInside(text, i', n, b, if k.Middle? && count == 1 then To(i) else m, count + Step(k), tags);
      }
    }
  }

  /** With an empty closing tag it only looks for the end of the run of opening tags. */
  lemma {:induction false} ScanRun(text: seq<char>, i: nat, n: nat, b: nat, count: nat, tags: Tags)
    requires tags.open != "" && tags.close == "" && i <= n <= |text| && count >= 1
    ensures var e := RunEnd(text, i, n, tags.open);
      Scan(text, i, n, To(b), Null, count, tags) == Marked(To(b), if e < n then To(e) else Null, Null, n)
    decreases n - i, count
  {
    if i < n {
      if Spells(text, i, n, tags.open) {
        ScanRun(text, i + |tags.open|, n, b, count + 1, tags);
      } else {
        assert Spells(text, i, n, tags.close);
        if count > 1 { ScanRun(text, i, n, b, count - 1, tags); }
      }
    }
  }

  lemma {:induction false} ScanIsSectionIn(text: seq<char>, i: nat, n: nat, tags: Tags)
    requires tags.Proper() && i <= n <= |text|
    ensures Scan(text, i, n, Null, Null, 0, tags) == SectionIn(Lex(text, i, n, tags), n, tags)
    decreases n - i
  {
    if i < n {
      var k := tags.At(text, i, n);
      var i' := i + tags.Width(k);
      assert !k.Plain? ==> Lex(text, i, n, tags)[1..] == Lex(text, i', n, tags);
      if k.Open? {
        ScanInside(text, i', n, i', Null, 1, tags);
      } else if !k.Close? {
        ScanIsSectionIn(text, i', n, tags);
      }
    }
  }

  /** The scan finds the section of the text. */
  lemma ScanIsSectionOf(text: seq<char>, i: nat, n: nat, tags: Tags)
    requires tags.open != "" && i <= n <= |text|
    ensures Scan(text, i, n, Null, Null, 0, tags) == SectionOf(text, i, n, tags)
  {
    if tags.Proper() {
      ScanIsSectionIn(text, i, n, tags);
    } else if i < n {
      assert Spells(text, i, n, tags.close);
      if Spells(text, i, n, tags.open) { ScanRun(text, i + |tags.open|, n, i + |tags.open|, 1, tags); }
    }
  }

  /** With these values the loop is on its way to the section `goal`. */
  ghost predicate LeadsTo(text: seq<char>, i: nat, n: nat, b: Pointer, m: Pointer, count: int, tags: Tags,
                          goal: Section) {
    tags.open != "" && i <= n <= |text| && goal == Scan(text, i, n, b, m, count, tags)
  }

  lemma LeadsAtEnd(text: seq<char>, n: nat, b: Pointer, m: Pointer, count: int, tags: Tags, goal: Section)
    requires LeadsTo(text, n, n, b, m, count, tags, goal)
    ensures goal == Marked(b, Null, m, n)
  {}

  lemma LeadsAtClose(text: seq<char>, i: nat, n: nat, b: Pointer, m: Pointer, count: int, tags: Tags, goal: Section)
    requires LeadsTo(text, i, n, b, m, count, tags, goal) && i < n && tags.At(text, i, n).Close? && count <= 1
    ensures count == 1 ==> goal == Marked(b, To(i), m, n)
    ensures count < 1 ==> goal == NotFound
  {}

  /** One round of the loop that does not leave it. */
  lemma LeadsStep(text: seq<char>, i: nat, n: nat, b: Pointer, m: Pointer, count: int, tags: Tags, goal: Section,
                  k: Kind, i': nat, b': Pointer, m': Pointer)
    requires LeadsTo(text, i, n, b, m, count, tags, goal) && i < n && k == tags.At(text, i, n)
    requires !(k.Close? && count <= 1) && i' == i + tags.Width(k)
    requires b' == if k.Open? && b.Null? then To(i') else b
    requires m' == if k.Middle? && count == 1 then To(i) else m
    ensures LeadsTo(text, i', n, b', m', count + Step(k), tags, goal)
  {}

  /** `strncmp` for equality with a whole tag. */
  method HasPrefix(buf: array<char>, p: nat, tag: string, ghost n: nat) returns (b: bool)
    requires Terminated(buf[..], p, n) && IsText(tag)
    ensures b <==> p + |tag| <= n && buf[p..p + |tag|] == tag
    ensures b <==> Spells(buf[..], p, n, tag)
  {
    for i := 0 to |tag|
      invariant p + i <= n && forall j | 0 <= j < i :: buf[p + j] == tag[j]
    {
      assert tag[i] in tag;
      if buf[p + i] != tag[i] {
        assert p + |tag| <= n ==> !Agrees(buf[..], p, tag, i) && buf[p..p + |tag|][i] != tag[i];
        return false;
      }
    }
    return true;
  }

  /** The tests of both scanners, in their order: what the text at `tmp` starts with. */
  method ReadTag(buf: array<char>, tmp: nat, tags: Tags, ghost n: nat) returns (k: Kind)
    requires Terminated(buf[..], tmp, n) && tmp < n
    requires IsText(tags.open) && IsText(tags.close) && IsText(tags.middle)
    ensures var open, close := Spells(buf[..], tmp, n, tags.open), Spells(buf[..], tmp, n, tags.close);
      && (k.Open? <==> open) && (k.Close? <==> close && !open)
      && (k.Middle? <==> tags.middle != "" && Spells(buf[..], tmp, n, tags.middle) && !open && !close)
    ensures k == tags.At(buf[..], tmp, n)
  {
    var found := HasPrefix(buf, tmp, tags.open, n);
    if found { return Open; }
    found := HasPrefix(buf, tmp, tags.close, n);
    if found { return Close; }
    found := HasPrefix(buf, tmp, tags.middle, n);
    return if tags.middle != "" && found then Middle else Plain;
  }

  /** `mark_section`; on failure the source leaves its pointers alone. */
  method MarkSection(buf: array<char>, begin: nat, tagB: string, tagE: string, ghost n: nat)
    returns (r: Section)
    requires Terminated(buf[..], begin, n)
    requires IsText(tagB) && IsText(tagE) && tagB != ""
    ensures r == SectionOf(buf[..], begin, n, Tags(tagB, tagE, ""))
  {
    var tags := Tags(tagB, tagE, "");
    var tmp, startCount := begin, 0;
    var e: Pointer, b: Pointer := Null, Null;
    ghost var goal := SectionOf(buf[..], begin, n, tags);
    ScanIsSectionOf(buf[..], begin, n, tags);
    while buf[tmp] != NUL
      invariant begin <= tmp <= n && e == Null && startCount >= 0
      invariant LeadsTo(buf[..], tmp, n, b, Null, startCount, tags, goal)
      invariant b.To? ==> begin <= b.at <= tmp
      decreases n - tmp, if startCount > 0 then startCount else 0
    {
      ghost var at, begun, count := tmp, b, startCount;
      var k := ReadTag(buf, tmp, tags, n);
      if k.Close? && count <= 1 { LeadsAtClose(buf[..], at, n, b, Null, count, tags, goal); }
      if k.Open? {
        startCount := startCount + 1;
        tmp := tmp + |tagB|;
        if b.Null? { b := To(tmp); }
      } else if k.Close? {
        startCount := startCount - 1;
        if startCount == 0 {
          e := To(tmp);
          break;
        }
        tmp := tmp + |tagE|;
      } else {
        tmp := tmp + 1;
      }
      if startCount < 0 { return NotFound; }
      LeadsStep(buf[..], at, n, begun, Null, count, tags, goal, k, tmp, b, Null);
    }
    if e == Null { LeadsAtEnd(buf[..], n, b, Null, startCount, tags, goal); }
    if b.Null? { return NotFound; }
    if buf[b.at] == NUL { return NotFound; }
    r := Found(b.at, e, Null);
  }

  /** `mark_section_and_middle`. */
  method MarkSectionAndMiddle(buf: array<char>, begin: nat, tagB: string, tagE: string, tagM: string, ghost n: nat)
    returns (r: Section)
    requires Terminated(buf[..], begin, n)
    requires IsText(tagB) && IsText(tagE) && IsText(tagM) && tagB != "" && (tagE == "" || tagM != "")
    ensures r == SectionOf(buf[..], begin, n, Tags(tagB, tagE, tagM))
  {
    var tags := Tags(tagB, tagE, tagM);
    var tmp, startCount := begin, 0;
    var e: Pointer, b: Pointer, m: Pointer := Null, Null, Null;
    ghost var goal := SectionOf(buf[..], begin, n, tags);
    ScanIsSectionOf(buf[..], begin, n, tags);
    while buf[tmp] != NUL
      invariant begin <= tmp <= n && e == Null && startCount >= 0
      invariant LeadsTo(buf[..], tmp, n, b, m, startCount, tags, goal)
      invariant b.To? ==> begin <= b.at <= tmp
      decreases n - tmp, if startCount > 0 then startCount else 0
    {
      ghost var at, begun, middle, count := tmp, b, m, startCount;
      var k := ReadTag(buf, tmp, tags, n);
      if k.Close? && count <= 1 { LeadsAtClose(buf[..], at, n, b, m, count, tags, goal); }
      if k.Open? {
        startCount := startCount + 1;
        tmp := tmp + |tagB|;
        if b.Null? { b := To(tmp); }
      } else if k.Close? {
        startCount := startCount - 1;
        if startCount == 0 {
          e := To(tmp);
          break;
        }
        tmp := tmp + |tagE|;
      } else if k.Middle? {
        if startCount == 1 { m := To(tmp); }
        tmp := tmp + |tagM|;
      } else {
        tmp := tmp + 1;
      }
      if startCount < 0 { return NotFound; }
      LeadsStep(buf[..], at, n, begun, middle, count, tags, goal, k, tmp, b, m);
    }
    if e == Null { LeadsAtEnd(buf[..], n, b, m, startCount, tags, goal); }
    if b.Null? { return NotFound; }
    if buf[b.at] == NUL { return NotFound; }
    r := Found(b.at, e, m);
  }
}

/** What a marked section is: the tag stream is the greedy one, the section is balanced, and
    a middle tag divides it into two balanced stretches. */
module SectionLaws {
  import opened CStrings
  import opened Sections

  // ----- the stream is greedy and complete -----

  /** Behind a tag. */
  function End(t: Tag, tags: Tags): nat {
    match t.kind
    case Open => t.at + |tags.open|
    case Close => t.at + |tags.close|
    case Middle => t.at + |tags.middle|
    case Plain => t.at + 1
  }

  /** `t` is a tag that can be read in `text[i..n]`. */
  ghost predicate Occurs(t: Tag, text: seq<char>, i: nat, n: nat, tags: Tags)
    requires n <= |text|
  {
    !t.kind.Plain? && i <= t.at < n && tags.At(text, t.at, n) == t.kind && End(t, tags) <= n
  }

  ghost predicate Apart(ts: seq<Tag>, tags: Tags) {
    forall j, k | 0 <= j < k < |ts| :: End(ts[j], tags) <= ts[k].at
  }

  lemma ApartCons(t: Tag, us: seq<Tag>, tags: Tags)
    requires Apart(us, tags) && forall u | u in us :: End(t, tags) <= u.at
    ensures Apart([t] + us, tags)
  {
    var ts := [t] + us;
    forall j, k | 0 <= j < k < |ts| ensures End(ts[j], tags) <= ts[k].at {
      assert ts[k] == us[k - 1] && us[k - 1] in us;
      assert j > 0 ==> ts[j] == us[j - 1];
    }
  }

  lemma LexUnfold(text: seq<char>, i: nat, n: nat, tags: Tags) returns (i': nat, head: seq<Tag>)
    requires tags.Proper() && i < n <= |text|
    ensures i' == i + tags.Width(tags.At(text, i, n)) <= n
    ensures head == if tags.At(text, i, n).Plain? then [] else [Tag(tags.At(text, i, n), i)]
    ensures Lex(text, i, n, tags) == head + Lex(text, i', n, tags)
  {
    i' := i + tags.Width(tags.At(text, i, n));
    head := if tags.At(text, i, n).Plain? then [] else [Tag(tags.At(text, i, n), i)];
  }

  /** The tags of the stream can be read where it says, and none reaches into the next. */
  lemma {:induction false} LexSound(text: seq<char>, i: nat, n: nat, tags: Tags)
    requires tags.Proper() && i <= n <= |text|
    ensures forall t | t in Lex(text, i, n, tags) :: Occurs(t, text, i, n, tags)
    ensures Apart(Lex(text, i, n, tags), tags)
    decreases n - i
  {
    if i < n {
      var i', head := LexUnfold(text, i, n, tags);
      LexSound(text, i', n, tags);
      if head != [] { ApartCons(head[0], Lex(text, i', n, tags), tags); }
    }
  }

  /** Every place where a tag can be read is inside a tag of the stream. */
  lemma {:induction false} LexComplete(text: seq<char>, i: nat, n: nat, tags: Tags, p: nat) returns (t: Tag)
    requires tags.Proper() && i <= p < n <= |text| && !tags.At(text, p, n).Plain?
    ensures t in Lex(text, i, n, tags) && t.at <= p < End(t, tags)
    decreases n - i
  {
    var i', head := LexUnfold(text, i, n, tags);
    if i' <= p {
      t := LexComplete(text, i', n, tags, p);
    } else {
      t := Tag(tags.At(text, i, n), i);
      assert head == [t];
    }
  }

  ghost predicate Covered(ts: seq<Tag>, tags: Tags, p: nat) {
    exists t :: t in ts && t.at <= p < End(t, tags)
  }

  /** Tags that can be read, one behind the other, and that miss none. */
  ghost predicate IsStream(ts: seq<Tag>, text: seq<char>, i: nat, n: nat, tags: Tags)
    requires n <= |text|
  {
    && (forall t | t in ts :: Occurs(t, text, i, n, tags))
    && Apart(ts, tags)
    && forall p: nat | i <= p < n && !tags.At(text, p, n).Plain? :: Covered(ts, tags, p)
  }

  /** Where no tag can be read the stream starts later. */
  lemma StreamSkips(ts: seq<Tag>, text: seq<char>, i: nat, n: nat, tags: Tags)
    requires i < n <= |text| && IsStream(ts, text, i, n, tags) && tags.At(text, i, n).Plain?
    ensures IsStream(ts, text, i + 1, n, tags)
  {}

  lemma TagAdvances(t: Tag, text: seq<char>, i: nat, n: nat, tags: Tags)
    requires tags.Proper() && n <= |text| && Occurs(t, text, i, n, tags)
    ensures i <= t.at < End(t, tags)
  {}

  lemma FirstInStream(ts: seq<Tag>, text: seq<char>, i: nat, n: nat, tags: Tags, j: nat)
    requires tags.Proper() && n <= |text| && Apart(ts, tags) && j < |ts| && ts[j].at == i
    requires Occurs(ts[0], text, i, n, tags)
    ensures j == 0
  {
    TagAdvances(ts[0], text, i, n, tags);
  }

  lemma OccursAt(ts: seq<Tag>, text: seq<char>, i: nat, n: nat, tags: Tags, j: nat)
    requires n <= |text| && IsStream(ts, text, i, n, tags) && j < |ts|
    ensures Occurs(ts[j], text, i, n, tags) && Apart(ts, tags)
  {
    assert ts[j] in ts;
  }

  lemma CoveredAt(ts: seq<Tag>, tags: Tags, p: nat) returns (j: nat)
    requires Covered(ts, tags, p)
    ensures j < |ts| && ts[j].at <= p < End(ts[j], tags)
  {
    var t :| t in ts && t.at <= p < End(t, tags);
    j :| 0 <= j < |ts| && ts[j] == t;
  }

  lemma FirstPlace(t: Tag, text: seq<char>, i: nat, n: nat, tags: Tags)
    requires n <= |text| && Occurs(t, text, i, n, tags) && t.at <= i
    ensures i < n && t == Tag(tags.At(text, i, n), i)
  {}

  /** Where one can be read, it is the first of the stream. */
  lemma StreamHead(ts: seq<Tag>, text: seq<char>, i: nat, n: nat, tags: Tags)
    requires tags.Proper() && n <= |text| && IsStream(ts, text, i, n, tags) && Covered(ts, tags, i)
    ensures i < n && ts != [] && ts[0] == Tag(tags.At(text, i, n), i)
  {
    var j := CoveredAt(ts, tags, i);
    OccursAt(ts, text, i, n, tags, j);
    OccursAt(ts, text, i, n, tags, 0);
    FirstPlace(ts[j], text, i, n, tags);
    FirstInStream(ts, text, i, n, tags, j);
  }

  lemma CoveredBehind(ts: seq<Tag>, tags: Tags, p: nat)
    requires ts != [] && Covered(ts, tags, p) && End(ts[0], tags) <= p
    ensures Covered(ts[1..], tags, p)
  {
    var t :| t in ts && t.at <= p < End(t, tags);
    assert t in ts[1..];
  }

  lemma OccursBehind(ts: seq<Tag>, text: seq<char>, i: nat, n: nat, tags: Tags, i': nat, j: nat)
    requires n <= |text| && IsStream(ts, text, i, n, tags) && 0 < j < |ts| && i' == End(ts[0], tags)
    ensures Occurs(ts[j], text, i', n, tags)
  {
    OccursAt(ts, text, i, n, tags, j);
  }

  lemma StreamTail(ts: seq<Tag>, text: seq<char>, i: nat, n: nat, tags: Tags, i': nat)
    requires n <= |text| && IsStream(ts, text, i, n, tags) && ts != [] && i' == End(ts[0], tags) && i <= i'
    ensures IsStream(ts[1..], text, i', n, tags)
  {
    var us := ts[1..];
    forall t | t in us ensures Occurs(t, text, i', n, tags) {
      var j :| 0 <= j < |us| && us[j] == t;
      OccursBehind(ts, text, i, n, tags, i', j + 1);
    }
    forall p: nat | i' <= p < n && !tags.At(text, p, n).Plain? ensures Covered(us, tags, p) {
      CoveredBehind(ts, tags, p);
    }
  }

  lemma HeadIsIn(ts: seq<Tag>)
    requires ts != []
    ensures ts[0] in ts
  {}

  lemma {:induction false} StreamIsLex(ts: seq<Tag>, text: seq<char>, i: nat, n: nat, tags: Tags)
    requires tags.Proper() && i <= n <= |text| && IsStream(ts, text, i, n, tags)
    ensures ts == Lex(text, i, n, tags)
    decreases n - i
  {
    if i == n {
      if ts != [] {
        HeadIsIn(ts);
        assert false;
      }
    } else {
      var i', head := LexUnfold(text, i, n, tags);
      if head == [] {
        StreamSkips(ts, text, i, n, tags);
        StreamIsLex(ts, text, i', n, tags);
      } else {
        StreamHead(ts, text, i, n, tags);
        StreamTail(ts, text, i, n, tags, i');
        StreamIsLex(ts[1..], text, i', n, tags);
      }
    }
  }

  /** The tag stream is the one and only sequence of tags that can be read one behind the other
      without missing any. */
  lemma LexExactly(ts: seq<Tag>, text: seq<char>, i: nat, n: nat, tags: Tags)
    requires tags.Proper() && i <= n <= |text|
    ensures ts == Lex(text, i, n, tags) <==> IsStream(ts, text, i, n, tags)
  {
    if ts == Lex(text, i, n, tags) {
      LexSound(text, i, n, tags);
      forall p: nat | i <= p < n && !tags.At(text, p, n).Plain? ensures Covered(ts, tags, p) {
        var t := LexComplete(text, i, n, tags, p);
      }
    }
    if IsStream(ts, text, i, n, tags) { StreamIsLex(ts, text, i, n, tags); }
  }

  // ----- parts of the text -----

  lemma ShorterText(text: seq<char>, i: nat, n: nat, tags: Tags, p: nat)
    requires tags.Proper() && i < n <= |text| && i + tags.Width(tags.At(text, i, n)) <= p <= n
    ensures tags.At(text, i, p) == tags.At(text, i, n)
  {}

  /** The text in front of the k-th tag has the first k tags of the stream. */
  lemma {:induction false} LexFront(text: seq<char>, i: nat, n: nat, tags: Tags, k: nat)
    requires tags.Proper() && i <= n <= |text| && k < |Lex(text, i, n, tags)|
    ensures var ts := Lex(text, i, n, tags);
      i <= ts[k].at <= n && Lex(text, i, ts[k].at, tags) == ts[..k]
    decreases n - i
  {
    var ts := Lex(text, i, n, tags);
    var i', head := LexUnfold(text, i, n, tags);
    if k >= |head| {
      var us, j := Lex(text, i', n, tags), k - |head|;
      LexFront(text, i', n, tags, j);
      assert us[j] == ts[k] && ts[..k] == head + us[..j];
      ShorterText(text, i, n, tags, ts[k].at);
    }
  }

  /** The text behind the k-th tag has the tags of the stream behind it. */
  lemma {:induction false} LexBack(text: seq<char>, i: nat, n: nat, tags: Tags, k: nat)
    requires tags.Proper() && i <= n <= |text| && k < |Lex(text, i, n, tags)|
    ensures var ts := Lex(text, i, n, tags);
      i <= End(ts[k], tags) <= n && Lex(text, End(ts[k], tags), n, tags) == ts[k + 1..]
    decreases n - i
  {
    var ts := Lex(text, i, n, tags);
    var i', head := LexUnfold(text, i, n, tags);
    var us := Lex(text, i', n, tags);
    if k >= |head| {
      LexBack(text, i', n, tags, k - |head|);
      assert us[k - |head|] == ts[k] && ts[k + 1..] == us[k - |head| + 1..];
    } else {
      assert ts[k + 1..] == us;
    }
  }

  /** The text between two tags has the tags of the stream between them. */
  lemma LexBetween(text: seq<char>, i: nat, n: nat, tags: Tags, j: nat, k: nat)
    requires tags.Proper() && i <= n <= |text| && j < k < |Lex(text, i, n, tags)|
    ensures var ts := Lex(text, i, n, tags);
      i <= End(ts[j], tags) <= ts[k].at <= n && Lex(text, End(ts[j], tags), ts[k].at, tags) == ts[j + 1..k]
  {
    var ts := Lex(text, i, n, tags);
    LexBack(text, i, n, tags, j);
    assert ts[k] == ts[j + 1..][k - j - 1];
    LexFront(text, End(ts[j], tags), n, tags, k - j - 1);
    assert ts[j + 1..][..k - j - 1] == ts[j + 1..k];
  }

  // ----- levels -----

  function Kinds(ts: seq<Tag>): (r: seq<Kind>)
    ensures |r| == |ts| && forall i | 0 <= i < |ts| :: r[i] == ts[i].kind
  {
    seq(|ts|, i requires 0 <= i < |ts| => ts[i].kind)
  }

  /** The level is the number of opening tags less that of closing tags. */
  lemma {:induction false} LevelCounts(ts: seq<Tag>)
    ensures Level(ts) + multiset(Kinds(ts))[Close] == multiset(Kinds(ts))[Open]
  {
    if ts != [] {
      LevelCounts(ts[1..]);
      assert Kinds(ts) == [ts[0].kind] + Kinds(ts[1..]);
    }
  }

  lemma {:induction false} LevelConcat(xs: seq<Tag>, ys: seq<Tag>)
    ensures Level(xs + ys) == Level(xs) + Level(ys)
  {
    if xs == [] {
      assert xs + ys == ys;
    } else {
      assert (xs + ys)[1..] == xs[1..] + ys;
      LevelConcat(xs[1..], ys);
    }
  }

  /** Read from level `d` on, the stream stays above level 0. */
  ghost predicate StaysUp(ts: seq<Tag>, d: nat) {
    forall j | 0 <= j <= |ts| :: d + Level(ts[..j]) >= 1
  }

  lemma StaysUpCons(t: Tag, ts: seq<Tag>, d: nat)
    requires d >= 1 && d + Step(t.kind) >= 1 && StaysUp(ts, d + Step(t.kind))
    ensures StaysUp([t] + ts, d)
  {
    var us := [t] + ts;
    forall j | 0 <= j <= |us| ensures d + Level(us[..j]) >= 1 {
      if j > 0 {
        assert us[..j] == [t] + ts[..j - 1];
        assert ([t] + ts[..j - 1])[1..] == ts[..j - 1];
      }
    }
  }

  /** Where level `d` ends, as an index into the stream. */
  function ClosingIndex(ts: seq<Tag>, d: nat): (k: nat)
    ensures k <= |ts|
  {
    if ts == [] || (ts[0].kind.Close? && d <= 1) then 0
    else 1 + ClosingIndex(ts[1..], d + Step(ts[0].kind))
  }

  /** Level `d` ends at the first closing tag that takes it down to 0, if there is one. */
  lemma {:induction false} ClosesFirst(ts: seq<Tag>, d: nat)
    requires d >= 1
    ensures var k := ClosingIndex(ts, d);
      && StaysUp(ts[..k], d)
      && CloseOf(ts, d) == (if k == |ts| then Null else To(ts[k].at))
      && (k < |ts| ==> ts[k].kind.Close? && d + Level(ts[..k]) == 1)
    decreases |ts|
  {
    var k := ClosingIndex(ts, d);
    if k == 0 {
      assert ts[..0] == [];
    } else {
      ClosesFirst(ts[1..], d + Step(ts[0].kind));
      StaysUpCons(ts[0], ts[1..][..k - 1], d);
      assert ts[..k] == [ts[0]] + ts[1..][..k - 1];
      assert ts[..k][1..] == ts[1..][..k - 1];
    }
  }

  /** The middle tag that counts: on level 1, in front of the end, and the last such one. */
  ghost predicate IsMiddle(ts: seq<Tag>, d: nat, j: nat) {
    j < ClosingIndex(ts, d) && ts[j].kind.Middle? && d + Level(ts[..j]) == 1
  }

  /** Where that tag is in the stream, or -1. */
  function MiddleIndex(ts: seq<Tag>, d: nat): (j: int)
    ensures -1 <= j < |ts|
  {
    if ts == [] || (ts[0].kind.Close? && d <= 1) then -1
    else
      var j := MiddleIndex(ts[1..], d + Step(ts[0].kind));
      if j >= 0 then j + 1 else if ts[0].kind.Middle? && d == 1 then 0 else -1
  }

  lemma IsMiddleShift(ts: seq<Tag>, d: nat, j: nat)
    requires ts != [] && ClosingIndex(ts, d) > 0 && d + Step(ts[0].kind) >= 0
    ensures IsMiddle(ts, d, j + 1) <==> IsMiddle(ts[1..], d + Step(ts[0].kind), j)
    ensures IsMiddle(ts, d, 0) <==> ts[0].kind.Middle? && d == 1
  {
    assert ts[..0] == [];
    if j + 1 < |ts| {
      assert ts[..j + 1][0] == ts[0];
      assert ts[..j + 1][1..] == ts[1..][..j];
    }
  }

  lemma {:induction false} MiddleIsLast(ts: seq<Tag>, d: nat, m: Pointer)
    requires d >= 1
    ensures var j := MiddleIndex(ts, d);
      && MiddleOf(ts, d, m) == (if j < 0 then m else To(ts[j].at))
      && (j >= 0 ==> IsMiddle(ts, d, j))
      && forall i: nat | i > j :: !IsMiddle(ts, d, i)
    decreases |ts|
  {
    if ClosingIndex(ts, d) > 0 {
      var us, d' := ts[1..], d + Step(ts[0].kind);
      MiddleIsLast(us, d', if ts[0].kind.Middle? && d == 1 then To(ts[0].at) else m);
      var j := MiddleIndex(ts, d);
      IsMiddleShift(ts, d, if j > 0 then j - 1 else 0);
      forall i: nat | i > j ensures !IsMiddle(ts, d, i) {
        if i > 0 { IsMiddleShift(ts, d, i - 1); }
      }
    }
  }

  // ----- sections -----

  lemma {:induction false} SkipMiddlesParts(ts: seq<Tag>) returns (f: nat)
    ensures f <= |ts| && SkipMiddles(ts) == ts[f..]
    ensures forall j | 0 <= j < f :: ts[j].kind.Middle?
    ensures f < |ts| ==> !ts[f].kind.Middle?
  {
    f := 0;
    if ts != [] && ts[0].kind.Middle? {
      var g := SkipMiddlesParts(ts[1..]);
      f := g + 1;
      assert ts[f..] == ts[1..][g..];
      forall j | 0 <= j < f ensures ts[j].kind.Middle? {
        if j > 0 { assert ts[j] == ts[1..][j - 1]; }
      }
    }
  }

  /** `f` is the first opening or closing tag of the stream, or the stream's length. */
  ghost predicate FirstTag(ts: seq<Tag>, f: nat) {
    f <= |ts| && (forall j | 0 <= j < f :: ts[j].kind.Middle?) && (f < |ts| ==> !ts[f].kind.Middle?)
  }

  /** When a section is found, and where it begins: exactly unless the first tag is a closing
      one, there is no tag, or nothing stands behind the first opening tag. */
  lemma SectionBegins(text: seq<char>, i: nat, n: nat, tags: Tags) returns (f: nat)
    requires tags.Proper() && i <= n <= |text|
    ensures var ts, r := Lex(text, i, n, tags), SectionOf(text, i, n, tags);
      && FirstTag(ts, f)
      && (r.NotFound? <==> f == |ts| || ts[f].kind.Close? || End(ts[f], tags) == n)
      && (r.Found? ==> r.begin == End(ts[f], tags) < n && Lex(text, r.begin, n, tags) == ts[f + 1..])
      && (r.Found? ==> r.end == CloseOf(ts[f + 1..], 1) && r.middle == MiddleOf(ts[f + 1..], 1, Null))
  {
    var ts := Lex(text, i, n, tags);
    f := SkipMiddlesParts(ts);
    if f < |ts| {
      LexBack(text, i, n, tags, f);
      LexSound(text, i, n, tags);
      assert Occurs(ts[f], text, i, n, tags);
      assert ts[f..][0] == ts[f] && ts[f..][1..] == ts[f + 1..];
    }
  }

  lemma OpenedSection(text: seq<char>, n: nat, tags: Tags)
    requires tags.Proper() && |tags.open| < n <= |text| && tags.At(text, 0, n).Open?
    ensures var r := SectionOf(text, 0, n, tags);
      r.Found? && r.begin == |tags.open| && r.end == CloseOf(Lex(text, |tags.open|, n, tags), 1)
  {
    var rest := Lex(text, |tags.open|, n, tags);
    assert ([Tag(Open, 0)] + rest)[1..] == rest;
  }

  lemma BalancedWhenUp(ts: seq<Tag>)
    requires StaysUp(ts, 1) && Level(ts) == 0
    ensures Balanced(ts)
  {
    forall j | 0 <= j <= |ts| ensures Level(ts[..j]) >= 0 {
      assert 1 + Level(ts[..j]) >= 1;
    }
  }

  /** Where a section ends: at the first closing tag that takes the depth back to zero, so
      that the section itself is balanced; nowhere exactly if the depth never returns. */
  lemma SectionEnds(text: seq<char>, i: nat, n: nat, tags: Tags) returns (k: nat)
    requires tags.Proper() && i <= n <= |text| && SectionOf(text, i, n, tags).Found?
    ensures var r := SectionOf(text, i, n, tags);
      var us := if r.begin <= n then Lex(text, r.begin, n, tags) else [];
      && r.begin <= n && k == ClosingIndex(us, 1) && StaysUp(us[..k], 1)
      && (r.end.Null? <==> k == |us|)
      && (r.end.To? ==>
            && us[k] == Tag(Close, r.end.at) && r.begin <= r.end.at < n
            && Lex(text, r.begin, r.end.at, tags) == us[..k] && Balanced(us[..k]))
  {
    var r := SectionOf(text, i, n, tags);
    var f := SectionBegins(text, i, n, tags);
    var us := Lex(text, r.begin, n, tags);
    k := ClosingIndex(us, 1);
    ClosesFirst(us, 1);
    if k < |us| {
      LexSound(text, r.begin, n, tags);
      assert Occurs(us[k], text, r.begin, n, tags);
      LexFront(text, r.begin, n, tags, k);
      BalancedWhenUp(us[..k]);
    }
  }

  lemma BalancedParts(us: seq<Tag>, j: nat, k: nat)
    requires j < k <= |us| && Balanced(us[..k]) && Level(us[..j]) == 0 && us[j].kind.Middle?
    ensures Balanced(us[..j]) && Balanced(us[j + 1..k])
  {
    var zs := us[j + 1..k];
    forall q | 0 <= q <= j ensures Level(us[..j][..q]) >= 0 {
      assert us[..j][..q] == us[..k][..q];
    }
    forall q | 0 <= q <= |zs| ensures Level(zs[..q]) == Level(us[..k][..j + 1 + q]) {
      assert us[..k][..j + 1 + q] == us[..j] + ([us[j]] + zs[..q]);
      LevelConcat(us[..j], [us[j]] + zs[..q]);
      LevelConcat([us[j]], zs[..q]);
    }
    assert zs[..|zs|] == zs && us[..k][..k] == us[..k];
  }

  lemma DividedAt(text: seq<char>, b: nat, n: nat, tags: Tags, j: nat, k: nat)
    requires tags.Proper() && b <= n <= |text| && j < k < |Lex(text, b, n, tags)|
    requires var us := Lex(text, b, n, tags);
      Balanced(us[..k]) && Level(us[..j]) == 0 && us[j].kind.Middle?
    ensures var us := Lex(text, b, n, tags);
      var m, e := us[j].at, us[k].at;
      && b <= m <= m + |tags.middle| <= e <= n
      && Balanced(Lex(text, b, m, tags)) && Balanced(Lex(text, m + |tags.middle|, e, tags))
  {
    var us := Lex(text, b, n, tags);
    LexFront(text, b, n, tags, j);
    LexBetween(text, b, n, tags, j, k);
    BalancedParts(us, j, k);
  }

  /** The middle of a section: the last middle tag on its own level, in front of its end. */
  lemma SectionMiddle(text: seq<char>, i: nat, n: nat, tags: Tags)
    requires tags.Proper() && i <= n <= |text| && SectionOf(text, i, n, tags).Found?
    ensures var r := SectionOf(text, i, n, tags);
      var us := if r.begin <= n then Lex(text, r.begin, n, tags) else [];
      var j := MiddleIndex(us, 1);
      && r.begin <= n && r.middle == (if j < 0 then Null else To(us[j].at))
      && (j >= 0 ==> IsMiddle(us, 1, j)) && (forall q: nat | q > j :: !IsMiddle(us, 1, q))
  {
    var f := SectionBegins(text, i, n, tags);
    MiddleIsLast(Lex(text, SectionOf(text, i, n, tags).begin, n, tags), 1, Null);
  }

  lemma SectionStream(text: seq<char>, i: nat, n: nat, tags: Tags, r: Section)
    requires tags.Proper() && i <= n <= |text| && r == SectionOf(text, i, n, tags) && r.Found?
    ensures r.begin <= n && r.end == CloseOf(Lex(text, r.begin, n, tags), 1)
    ensures r.middle == MiddleOf(Lex(text, r.begin, n, tags), 1, Null)
  {
    var f := SectionBegins(text, i, n, tags);
  }

  lemma StreamDivides(text: seq<char>, b: nat, n: nat, tags: Tags, us: seq<Tag>, e: nat, m: nat)
    requires tags.Proper() && b <= n <= |text| && us == Lex(text, b, n, tags)
    requires CloseOf(us, 1) == To(e) && MiddleOf(us, 1, Null) == To(m)
    ensures b <= m <= m + |tags.middle| <= e <= n
    ensures Balanced(Lex(text, b, m, tags)) && Balanced(Lex(text, m + |tags.middle|, e, tags))
  {
    ClosesFirst(us, 1);
    BalancedWhenUp(us[..ClosingIndex(us, 1)]);
    MiddleIsLast(us, 1, Null);
    DividedAt(text, b, n, tags, MiddleIndex(us, 1), ClosingIndex(us, 1));
  }

  /** With an end, what lies before and behind the middle tag is balanced, and in the section. */
  lemma SectionDivides(text: seq<char>, i: nat, n: nat, tags: Tags, b: nat, m: nat, e: nat)
    requires tags.Proper() && i <= n <= |text|
    requires SectionOf(text, i, n, tags) == Found(b, To(e), To(m))
    ensures b <= m <= m + |tags.middle| <= e <= n
    ensures Balanced(Lex(text, b, m, tags)) && Balanced(Lex(text, m + |tags.middle|, e, tags))
  {
    SectionStream(text, i, n, tags, Found(b, To(e), To(m)));
    StreamDivides(text, b, n, tags, Lex(text, b, n, tags), e, m);
  }
}

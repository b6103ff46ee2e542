/** What item lists are: the fields between delimiters, or the words of a text; and how
    they undo joining. */
module ItemLaws {
  import opened CStrings
  import opened Trimming
  import opened ItemLists
  import opened LineSplitting

  // ----- fields -----

  /** Splits at every delimiter. There is one more field than there are delimiters. */
  function Fields(s: string, c: char): (r: seq<string>)
    ensures |r| >= 1
    decreases |s|
  {
    var k := IndexOf(s, c);
    if k == |s| then [s] else [s[..k]] + Fields(s[k + 1..], c)
  }

  predicate EndsIn(s: string, c: char) {
    s != "" && s[|s| - 1] == c
  }

  /** The declarative reading of `to_items`: trim the text, split it at every delimiter,
      trim each field, and forget the last field when the trimmed text ends in a delimiter. */
  function FieldItems(s: string, c: char): seq<string> {
    KeptFields(Trimmed(s), c)
  }

  function KeptFields(t: string, c: char): seq<string> {
    var fields := TrimAll(Fields(t, c));
    if EndsIn(t, c) then fields[..|fields| - 1] else fields
  }

  lemma FieldsCons(x: string, c: char, rest: string)
    requires c !in x
    ensures Fields(x + [c] + rest, c) == [x] + Fields(rest, c)
  {
    var s := x + [c] + rest;
    IndexOfUnique(s, c, |x|);
    assert s[..|x|] == x && s[|x| + 1..] == rest;
  }

  lemma FieldsLast(x: string, c: char)
    requires c !in x
    ensures Fields(x, c) == [x]
  {
    IndexOfUnique(x, c, |x|);
  }

  lemma TrimAllCons(x: string, xs: seq<string>)
    ensures TrimAll([x] + xs) == [Trimmed(x)] + TrimAll(xs)
  {}

  /** Whitespace in front of a text does not change its trimmed fields, if it is no delimiter. */
  lemma FieldsPadded(p: string, s: string, c: char)
    requires Blank(p) && c !in p
    ensures TrimAll(Fields(p + s, c)) == TrimAll(Fields(s, c))
  {
    var Split(x, rest) := Cut(s, c);
    TrimmedPadded(p, x, "");
    assert p + x + "" == p + x;
    assert c !in p + x;
    if c in s {
      FieldsCons(x, c, rest);
      TrimAllCons(x, Fields(rest, c));
      Assoc(p, x + [c], rest);
      Assoc(p, x, [c]);
      FieldsCons(p + x, c, rest);
      TrimAllCons(p + x, Fields(rest, c));
    } else {
      FieldsLast(p + s, c);
      FieldsLast(s, c);
    }
  }

  /** A text that does not end with whitespace is only trimmed at its front. */
  lemma TrimmedTail(s: string) returns (p: string)
    requires s != "" && !IsSpace(s[|s| - 1])
    ensures Blank(p) && s == p + Trimmed(s) && Trimmed(s) != ""
    ensures forall c :: EndsIn(s, c) <==> EndsIn(Trimmed(s), c)
  {
    p := s[..LeadingBlanks(s)];
    assert TrimRight(TrimLeft(s)) == TrimLeft(s);
  }

  lemma TrimmedTailFields(s: string, c: char)
    requires s != "" && !IsSpace(s[|s| - 1]) && !IsSpace(c)
    ensures FieldItems(s, c) == KeptFields(s, c)
  {
    var p := TrimmedTail(s);
    FieldsPadded(p, Trimmed(s), c);
  }

  lemma DropLast<T>(a: seq<T>, b: seq<T>)
    requires b != []
    ensures (a + b)[..|a + b| - 1] == a + b[..|b| - 1]
  {}

  /** Behind the first field of a text the fields are those of the rest. */
  lemma KeptFieldsStep(x: string, c: char, rest: string)
    requires c !in x
    ensures KeptFields(x + [c] + rest, c) == [Trimmed(x)] + (if rest == "" then [] else KeptFields(rest, c))
  {
    var t := x + [c] + rest;
    FieldsCons(x, c, rest);
    TrimAllCons(x, Fields(rest, c));
    DropLast([Trimmed(x)], TrimAll(Fields(rest, c)));
    if rest == "" {
      FieldsLast(rest, c);
    } else {
      assert t[|t| - 1] == rest[|rest| - 1];
    }
  }

  lemma KeptFieldsLast(t: string, c: char)
    requires c !in t
    ensures KeptFields(t, c) == [Trimmed(t)]
  {
    FieldsLast(t, c);
    TrimAllCons(t, []);
  }

  lemma ItemsStep(s: string, c: char)
    requires s != "" && c != ' '
    ensures var Split(x, rest) := Cut(Trimmed(s), c);
      |rest| < |s| && ItemsOf(s, c) == [Trimmed(x)] + ItemsOf(rest, c)
  {}

  /** What is left of a trimmed text behind a visible delimiter does not end with whitespace. */
  lemma RestIsVisible(s: string, x: string, c: char, rest: string)
    requires Trimmed(s) == x + [c] + rest && rest != ""
    ensures !IsSpace(rest[|rest| - 1])
  {
    var p, q := TrimmedParts(s);
    var t := Trimmed(s);
    assert t[|t| - 1] == rest[|rest| - 1];
  }

  /** For a visible delimiter the repeated cutting of `to_items` is field splitting. */
  lemma {:induction false} ItemsAreFields(s: string, c: char)
    requires s != "" && !IsSpace(c)
    ensures ItemsOf(s, c) == FieldItems(s, c)
    decreases |s|
  {
    var Split(x, rest) := Cut(Trimmed(s), c);
    ItemsStep(s, c);
    if c !in Trimmed(s) {
      KeptFieldsLast(Trimmed(s), c);
    } else {
      KeptFieldsStep(x, c, rest);
      if rest != "" {
        RestIsVisible(s, x, c, rest);
        TrimmedTailFields(rest, c);
        ItemsAreFields(rest, c);
      }
    }
  }

  /** Field splitting describes `to_items` for exactly the visible delimiters. */
  lemma FieldsNeedVisibleDelimiter(c: char)
    ensures (forall s | s != "" :: ItemsOf(s, c) == FieldItems(s, c)) <==> !IsSpace(c)
  {
    if IsSpace(c) {
      var s := ['a', c, c, 'b'];
      TwoItems(s, c);
      ThreeFields(s, c);
      assert ItemsOf(s, c) != FieldItems(s, c);
    } else {
      forall s | s != "" ensures ItemsOf(s, c) == FieldItems(s, c) {
        ItemsAreFields(s, c);
      }
    }
  }

  lemma ThreeFields(s: string, c: char)
    requires s == ['a', c, c, 'b'] && IsSpace(c)
    ensures |FieldItems(s, c)| == 3
  {
    TrimmedOfTrimmed(s);
    assert s == "a" + [c] + [c, 'b'] && [c, 'b'] == "" + [c] + "b";
    FieldsCons("a", c, [c, 'b']);
    FieldsCons("", c, "b");
    FieldsLast("b", c);
  }

  lemma TwoItems(s: string, c: char)
    requires s == ['a', c, c, 'b'] && IsSpace(c)
    ensures |ItemsOf(s, c)| == 2
  {
    TrimmedOfTrimmed(s);
    TrimmedOfTrimmed("b");
    if c == ' ' {
      LeadingInkUnique(s, 1);
      LeadingInkUnique("b", 1);
      LeadingBlanksUnique(s[1..], 2);
      assert SplitPair(s, c).rest == "b";
      assert SplitPair("b", c).rest == "";
    } else {
      IndexOfUnique(s, c, 1);
      IndexOfUnique("b", c, 1);
      TrimmedUnique([c], "b", "");
      assert [c] + "b" + "" == [c, 'b'];
      assert SplitPair(s, c).rest == [c, 'b'];
      assert SplitPair([c, 'b'], c).rest == "";
      assert |ItemsOf([c, 'b'], c)| == 1;
    }
  }

  // ----- whitespace as a delimiter -----

  /** The fields that are left when each is trimmed and the blank ones are dropped. */
  function VisibleFields(s: string, c: char): seq<string> {
    NonEmpty(TrimAll(Fields(s, c)))
  }

  lemma VisibleFieldsCons(x: string, c: char, rest: string)
    requires c !in x
    ensures VisibleFields(x + [c] + rest, c) == NonEmpty([Trimmed(x)]) + VisibleFields(rest, c)
  {
    FieldsCons(x, c, rest);
    TrimAllCons(x, Fields(rest, c));
    NonEmptyConcat([Trimmed(x)], TrimAll(Fields(rest, c)));
  }

  lemma VisibleFieldsLast(x: string, c: char)
    requires c !in x
    ensures VisibleFields(x, c) == NonEmpty([Trimmed(x)])
  {
    FieldsLast(x, c);
    assert TrimAll([x]) == [Trimmed(x)];
  }

  lemma VisibleFieldsOfEmpty(c: char)
    ensures VisibleFields("", c) == []
  {
    VisibleFieldsLast("", c);
    TrimmedBlank("");
    NonEmptyOne("");
  }

  lemma VisibleFieldsFront(w: char, s: string, c: char)
    requires IsSpace(w)
    ensures VisibleFields([w] + s, c) == VisibleFields(s, c)
  {
    if w == c {
      assert [w] + s == "" + [c] + s;
      VisibleFieldsCons("", c, s);
      TrimmedBlank("");
      NonEmptyOne("");
    } else {
      FieldsPadded([w], s, c);
    }
  }

  lemma {:induction false} VisibleFieldsPaddedLeft(p: string, s: string, c: char)
    requires Blank(p)
    ensures VisibleFields(p + s, c) == VisibleFields(s, c)
  {
    if p == "" {
      assert p + s == s;
    } else {
      assert p + s == [p[0]] + (p[1..] + s);
      VisibleFieldsFront(p[0], p[1..] + s, c);
      VisibleFieldsPaddedLeft(p[1..], s, c);
    }
  }

  lemma VisibleFieldsOfBlank(s: string, c: char)
    requires Blank(s)
    ensures VisibleFields(s, c) == []
  {
    VisibleFieldsPaddedLeft(s, "", c);
    assert s + "" == s;
    VisibleFieldsOfEmpty(c);
  }

  /** Whitespace behind the last field, where the delimiter may be among it. */
  lemma VisibleFieldsBehind(x: string, y: string, c: char, z: string)
    requires c !in x + y && Blank(y) && Blank(z)
    ensures VisibleFields(x + y + [c] + z, c) == VisibleFields(x + y, c) == NonEmpty([Trimmed(x)])
  {
    VisibleFieldsCons(x + y, c, z);
    VisibleFieldsOfBlank(z, c);
    VisibleFieldsLast(x + y, c);
    TrimmedPaddedRight(x, y);
  }

  lemma CutOfBlank(q: string, c: char)
    requires Blank(q)
    ensures Blank(Cut(q, c).head) && Blank(Cut(q, c).rest)
  {}

  lemma VisibleFieldsLastPadded(x: string, q: string, c: char)
    requires c !in x && Blank(q)
    ensures VisibleFields(x + q, c) == VisibleFields(x, c)
  {
    var Split(y, z) := Cut(q, c);
    CutOfBlank(q, c);
    VisibleFieldsLast(x, c);
    if c in q {
      VisibleFieldsBehind(x, y, c, z);
      Assoc(x, y, [c] + z);
      Assoc(x + y, [c], z);
      Assoc(y, [c], z);
    } else {
      VisibleFieldsBehind(x, q, c, "");
    }
  }

  lemma VisibleFieldsStep(x: string, c: char, rest: string, q: string)
    requires c !in x && VisibleFields(rest + q, c) == VisibleFields(rest, c)
    ensures VisibleFields(x + [c] + rest + q, c) == VisibleFields(x + [c] + rest, c)
  {
    VisibleFieldsCons(x, c, rest);
    VisibleFieldsCons(x, c, rest + q);
    Assoc(x + [c], rest, q);
  }

  lemma {:induction false} VisibleFieldsPaddedRight(s: string, q: string, c: char)
    requires Blank(q)
    ensures VisibleFields(s + q, c) == VisibleFields(s, c)
    decreases |s|
  {
    if c in s {
      var Split(x, rest) := Cut(s, c);
      VisibleFieldsPaddedRight(rest, q, c);
      VisibleFieldsStep(x, c, rest, q);
    } else {
      VisibleFieldsLastPadded(s, q, c);
    }
  }

  lemma VisibleFieldsOfTrimmed(s: string, c: char)
    ensures VisibleFields(s, c) == VisibleFields(Trimmed(s), c)
  {
    var p, q := TrimmedParts(s);
    VisibleFieldsPaddedRight(p + Trimmed(s), q, c);
    VisibleFieldsPaddedLeft(p, Trimmed(s), c);
  }

  /** Around a delimiter that is whitespace a trimmed text is visible on both sides. */
  lemma VisibleAround(t: string, x: string, c: char, rest: string)
    requires IsTrimmed(t) && t == x + [c] + rest && IsSpace(c)
    ensures Trimmed(x) != "" && rest != "" && !IsSpace(rest[|rest| - 1])
  {
    assert t[0] == (x + [c])[0];
    assert t[|t| - 1] == ([c] + rest)[|rest|];
    TrimmedBlank(x);
  }

  /** For whitespace other than the blank, `to_items` keeps the trimmed fields that are not
      blank. The one exception is a text of whitespace alone: it is a single empty item. */
  lemma {:induction false} ItemsAreVisibleFields(s: string, c: char)
    requires IsSpace(c) && c != ' '
    ensures s != "" && Blank(s) ==> ItemsOf(s, c) == [""]
    ensures s == "" || !Blank(s) ==> ItemsOf(s, c) == VisibleFields(s, c)
    decreases |s|
  {
    if Blank(s) {
      VisibleFieldsOfBlank(s, c);
      if s != "" { BlankItem(s, c); }
    } else {
      var t := Trimmed(s);
      var Split(x, rest) := Cut(t, c);
      var p, q := TrimmedParts(s);
      VisibleFieldsOfTrimmed(s, c);
      ItemsStep(s, c);
      NonEmptyOne(Trimmed(x));
      if c in t {
        VisibleAround(t, x, c, rest);
        VisibleFieldsCons(x, c, rest);
        ItemsAreVisibleFields(rest, c);
      } else {
        VisibleFieldsLast(t, c);
        TrimmedBlank(s);
        TrimmedOfTrimmed(t);
      }
    }
  }

  // ----- joining -----

  function Join(xs: seq<string>, sep: string): string {
    if xs == [] then ""
    else if |xs| == 1 then xs[0]
    else xs[0] + sep + Join(xs[1..], sep)
  }

  lemma JoinCons(x: string, xs: seq<string>, sep: string)
    requires xs != []
    ensures Join([x] + xs, sep) == x + sep + Join(xs, sep)
  {
    assert ([x] + xs)[1..] == xs;
  }

  lemma {:induction false} JoinSnoc(xs: seq<string>, x: string, sep: string)
    ensures Join(xs + [x], sep) == if xs == [] then x else Join(xs, sep) + sep + x
  {
    if xs == [] {
      assert xs + [x] == [x];
    } else {
      var ys := xs[1..];
      assert (xs + [x])[1..] == ys + [x];
      JoinSnoc(ys, x, sep);
      if ys != [] {
        Assoc(xs[0] + sep, Join(ys, sep), sep + x);
        Assoc(Join(ys, sep), sep, x);
        Assoc(Join(xs, sep), sep, x);
      }
    }
  }

  lemma {:induction false} FieldsOfJoin(xs: seq<string>, c: char)
    requires xs != [] && forall x | x in xs :: c !in x
    ensures Fields(Join(xs, [c]), c) == xs
  {
    if |xs| == 1 {
      FieldsLast(xs[0], c);
    } else {
      FieldsCons(xs[0], c, Join(xs[1..], [c]));
      FieldsOfJoin(xs[1..], c);
    }
  }

  lemma ItemsPaddedRight(s: string, q: string, c: char)
    requires s != "" && Blank(q)
    ensures ItemsOf(s + q, c) == ItemsOf(s, c)
  {
    TrimmedPaddedRight(s, q);
  }

  /** The last of a nonempty list of items. */
  function Last<T>(xs: seq<T>): T
    requires xs != []
  {
    xs[|xs| - 1]
  }

  lemma LastOfJoin(xs: seq<string>, c: char)
    requires xs != [] && Last(xs) != "" && forall x | x in xs :: c !in x
    ensures Join(xs, [c]) != "" && Last(Join(xs, [c])) == Last(Last(xs)) != c
  {
    JoinSnoc(xs[..|xs| - 1], Last(xs), [c]);
    assert xs == xs[..|xs| - 1] + [Last(xs)];
    assert Last(xs) in xs && Last(Last(xs)) in Last(xs);
  }

  lemma ItemsOfVisibleJoin(xs: seq<string>, c: char)
    requires !IsSpace(c) && xs != [] && forall x | x in xs :: c !in x
    requires Last(xs) != "" && !IsSpace(Last(Last(xs)))
    ensures ItemsOf(Join(xs, [c]), c) == TrimAll(xs)
  {
    LastOfJoin(xs, c);
    ItemsAreFields(Join(xs, [c]), c);
    TrimmedTailFields(Join(xs, [c]), c);
    FieldsOfJoin(xs, c);
  }

  lemma ItemsOfPaddedJoin(front: seq<string>, r: string, q: string, c: char)
    requires !IsSpace(c) && (forall y | y in front + [r] :: c !in y)
    requires r != "" && !IsSpace(Last(r)) && Blank(q)
    ensures ItemsOf(Join(front + [r + q], [c]), c) == TrimAll(front + [r + q])
  {
    ItemsOfVisibleJoin(front + [r], c);
    JoinPadded(front, r, q, [c]);
    assert Join(front + [r], [c]) != "" by { JoinSnoc(front, r, [c]); }
    ItemsPaddedRight(Join(front + [r], [c]), q, c);
    TrimAllPadded(front, r, q);
  }

  lemma TrimAllPadded(front: seq<string>, r: string, q: string)
    requires Blank(q)
    ensures TrimAll(front + [r + q]) == TrimAll(front + [r])
  {
    TrimmedPaddedRight(r, q);
    TrimAllConcat(front, [r + q]);
    TrimAllConcat(front, [r]);
  }

  /** Items joined by a visible delimiter they do not contain come back trimmed, as long as
      the last one is not blank. */
  lemma ItemsOfJoin(xs: seq<string>, c: char)
    requires !IsSpace(c) && (forall x | x in xs :: c !in x)
    requires xs == [] || !Blank(Last(xs))
    ensures ItemsOf(Join(xs, [c]), c) == TrimAll(xs)
  {
    if xs != [] {
      var front, x := xs[..|xs| - 1], Last(xs);
      var r := TrimRight(x);
      var q := x[|r|..];
      TrimRightParts(x);
      assert x == r + q && xs == front + [x];
      assert r == "" ==> q == x;
      assert x in xs;
      ItemsOfPaddedJoin(front, r, q, c);
    }
  }

  lemma JoinPadded(front: seq<string>, r: string, q: string, sep: string)
    ensures Join(front + [r + q], sep) == Join(front + [r], sep) + q
  {
    JoinSnoc(front, r + q, sep);
    JoinSnoc(front, r, sep);
    if front != [] { Assoc(Join(front, sep) + sep, r, q); }
  }

  lemma TrimmedPaddedRight(s: string, q: string)
    requires Blank(q)
    ensures Trimmed(s + q) == Trimmed(s)
  {
    TrimmedPadded("", s, q);
    assert "" + s + q == s + q;
  }

  /** No item holds its delimiter, or whitespace at an end. */
  lemma {:induction false} ItemsAreClean(s: string, c: char)
    ensures forall x | x in ItemsOf(s, c) :: IsTrimmed(x) && c !in x
    decreases |s|
  {
    if s != "" {
      var Split(name, rest) := SplitPair(s, c);
      ItemsAreClean(rest, c);
      var p, q := TrimmedParts(name);
      TrimmedMembers(name);
    }
  }

  lemma LastItemLost(xs: seq<string>, c: char)
    requires !IsSpace(c) && (forall x | x in xs :: c !in x)
    requires xs != [] && Last(xs) == ""
    ensures |ItemsOf(Join(xs, [c]), c)| == |xs| - 1
  {
    var J := Join(xs, [c]);
    if |xs| > 1 {
      JoinSnoc(xs[..|xs| - 1], "", [c]);
      assert xs == xs[..|xs| - 1] + [""];
      ItemsAreFields(J, c);
      TrimmedTailFields(J, c);
      FieldsOfJoin(xs, c);
    }
  }

  lemma BlankItemLost(xs: seq<string>, c: char)
    requires !IsSpace(c) && (forall x | x in xs :: c !in x) && |xs| > 1 && Blank(Last(xs))
    ensures |ItemsOf(Join(xs, [c]), c)| == |xs| - 1
  {
    var front, q := xs[..|xs| - 1], Last(xs);
    assert "" + q == q && xs == front + [q];
    JoinPadded(front, "", q, [c]);
    assert Join(front + [""], [c]) != "" by { JoinSnoc(front, "", [c]); }
    ItemsPaddedRight(Join(front + [""], [c]), q, c);
    LastItemLost(front + [""], c);
  }

  lemma BlankItem(x: string, c: char)
    requires x != "" && Blank(x)
    ensures ItemsOf(x, c) == [""]
  {
    TrimmedBlank(x);
    TrimmedBlank("");
  }

  /** A text whose trimmed form is a list of texts joined with a visible delimiter: these, trimmed, are
      its items, except for an empty one behind the last delimiter. */
  lemma ItemsOfText(s: string, xs: seq<string>, c: char)
    requires s != "" && !IsSpace(c) && xs != [] && Trimmed(s) == Join(xs, [c]) && forall x | x in xs :: c !in x
    ensures |xs| == 1 || Last(xs) != "" ==> ItemsOf(s, c) == TrimAll(xs)
    ensures |xs| > 1 && Last(xs) == "" ==> ItemsOf(s, c) == TrimAll(xs[..|xs| - 1])
  {
    var front := xs[..|xs| - 1];
    assert xs == front + [Last(xs)];
    ItemsAreFields(s, c);
    FieldsOfJoin(xs, c);
    JoinSnoc(front, Last(xs), [c]);
    if Last(xs) != "" { LastOfJoin(xs, c); }
    TrimAllConcat(front, [Last(xs)]);
  }

  lemma VisibleStays(x: string, c: char)
    requires !IsSpace(c) && c !in Trimmed(x)
    ensures c !in x
  {
    var p, q := TrimmedParts(x);
    forall i | 0 <= i < |x| ensures x[i] != c {
      assert x[i] == (p + Trimmed(x) + q)[i];
      if |p| <= i < |p| + |Trimmed(x)| { assert x[i] == Trimmed(x)[i - |p|]; }
    }
  }

  /** Items that survive being joined with `c` and split again. */
  predicate Survive(xs: seq<string>, c: char) {
    && (forall x | x in xs :: c !in x)
    && (xs == [] || !Blank(Last(xs)) || (|xs| == 1 && xs[0] != ""))
  }

  lemma SurvivorsComeBack(xs: seq<string>, c: char)
    requires !IsSpace(c) && Survive(xs, c)
    ensures ItemsOf(Join(xs, [c]), c) == TrimAll(xs)
  {
    if xs == [] || !Blank(Last(xs)) {
      ItemsOfJoin(xs, c);
    } else {
      BlankItem(xs[0], c);
      TrimmedBlank(xs[0]);
    }
  }

  lemma OnlySurvivorsComeBack(xs: seq<string>, c: char)
    requires !IsSpace(c) && ItemsOf(Join(xs, [c]), c) == TrimAll(xs)
    ensures Survive(xs, c)
  {
    ItemsAreClean(Join(xs, [c]), c);
    forall x | x in xs ensures c !in x {
      var i :| 0 <= i < |xs| && xs[i] == x;
      assert TrimAll(xs)[i] in TrimAll(xs);
      VisibleStays(x, c);
    }
    if |xs| > 1 && Blank(Last(xs)) { BlankItemLost(xs, c); }
  }

  /** Items joined with a visible delimiter come back trimmed if and only if none of them holds
      the delimiter, and the last is not blank, or is the only one and not empty. */
  lemma ItemsOfJoinExactly(xs: seq<string>, c: char)
    requires !IsSpace(c)
    ensures ItemsOf(Join(xs, [c]), c) == TrimAll(xs) <==> Survive(xs, c)
  {
    if Survive(xs, c) { SurvivorsComeBack(xs, c); }
    if ItemsOf(Join(xs, [c]), c) == TrimAll(xs) { OnlySurvivorsComeBack(xs, c); }
  }

  /** Joining with a visible delimiter and splitting again gives the items back if and only
      if they are trimmed, free of the delimiter, and the last of them is not empty. */
  lemma ItemsRoundTrip(xs: seq<string>, c: char)
    requires !IsSpace(c)
    ensures ItemsOf(Join(xs, [c]), c) == xs
       <==> (forall x | x in xs :: IsTrimmed(x) && c !in x) && (xs == [] || Last(xs) != "")
  {
    ItemsAreClean(Join(xs, [c]), c);
    if forall x | x in xs :: IsTrimmed(x) && c !in x {
      if xs != [] && Last(xs) == "" {
        LastItemLost(xs, c);
      } else {
        assert xs != [] ==> Last(xs) in xs;
        ItemsOfJoin(xs, c);
        forall i | 0 <= i < |xs| ensures Trimmed(xs[i]) == xs[i] {
          assert xs[i] in xs;
          TrimmedOfTrimmed(xs[i]);
        }
      }
    }
  }

  lemma {:induction false} AllNonEmpty(xs: seq<string>)
    requires forall x | x in xs :: x != ""
    ensures NonEmpty(xs) == xs
  {
    if xs != [] {
      assert xs[0] in xs && forall x | x in xs[1..] :: x in xs;
      AllNonEmpty(xs[1..]);
    }
  }

  lemma VisibleJoin(xs: seq<string>, c: char)
    requires IsSpace(c) && c != ' ' && xs != [] && forall x | x in xs :: x != "" && IsTrimmed(x) && c !in x
    ensures ItemsOf(Join(xs, [c]), c) == xs
  {
    var J := Join(xs, [c]);
    assert xs[0] in xs && J[0] == xs[0][0];
    FieldsOfJoin(xs, c);
    forall i | 0 <= i < |xs| ensures Trimmed(xs[i]) == xs[i] {
      assert xs[i] in xs;
      TrimmedOfTrimmed(xs[i]);
    }
    assert TrimAll(xs) == xs;
    AllNonEmpty(xs);
    ItemsAreVisibleFields(J, c);
  }

  lemma JoinIsVisible(xs: seq<string>, c: char)
    requires IsSpace(c) && c != ' ' && ItemsOf(Join(xs, [c]), c) == xs
    ensures forall x | x in xs :: x != ""
  {
    var J := Join(xs, [c]);
    ItemsAreVisibleFields(J, c);
    NonEmptyMembers(TrimAll(Fields(J, c)));
    assert xs == [""] ==> J == "";
  }

  /** Joining with whitespace other than the blank and splitting again gives the items back if and
      only if they are trimmed, not empty, and free of the delimiter. */
  lemma WhitespaceRoundTrip(xs: seq<string>, c: char)
    requires IsSpace(c) && c != ' '
    ensures ItemsOf(Join(xs, [c]), c) == xs <==> forall x | x in xs :: x != "" && IsTrimmed(x) && c !in x
  {
    if ItemsOf(Join(xs, [c]), c) == xs {
      JoinIsVisible(xs, c);
      ItemsAreClean(Join(xs, [c]), c);
    } else if xs != [] && forall x | x in xs :: x != "" && IsTrimmed(x) && c !in x {
      VisibleJoin(xs, c);
    }
  }

  /** What the accumulator of `implode` holds after visiting the items. */
  function Accumulated(xs: seq<string>, sep: string): string {
    if xs == [] then "" else Accumulated(xs[..|xs| - 1], sep) + (sep + Last(xs))
  }

  lemma {:induction false} AccumulatedIsJoin(xs: seq<string>, sep: string)
    requires xs != []
    ensures Accumulated(xs, sep) == sep + Join(xs, sep)
  {
    var front := xs[..|xs| - 1];
    assert xs == front + [Last(xs)];
    JoinSnoc(front, Last(xs), sep);
    if front != [] {
      AccumulatedIsJoin(front, sep);
      Assoc(sep, Join(front, sep), sep + Last(xs));
      Assoc(Join(front, sep), sep, Last(xs));
    } else {
      assert Accumulated([], sep) == "";
    }
  }

  function Mapped<T>(olist: seq<T>, op: T -> string): (r: seq<string>)
    ensures |r| == |olist| && forall i | 0 <= i < |olist| :: r[i] == op(olist[i])
  {
    seq(|olist|, i requires 0 <= i < |olist| => op(olist[i]))
  }

  /** `implode`. It joins what the operation makes of the items with a separator in front of
      each, and drops the first character of that when asked for no separator in front. */
  method Implode<T>(separator: string, olist: seq<T>, op: T -> string, noFrontSep: bool) returns (str: string)
    ensures var xs := Mapped(olist, op);
      str == if olist == [] then ""
             else if !noFrontSep then separator + Join(xs, separator)
             else if separator != "" then separator[1..] + Join(xs, separator)
             else if Join(xs, "") == "" then "" else Join(xs, "")[1..]
  {
    ghost var xs := Mapped(olist, op);
    var accumulator := "";
    for i := 0 to |olist|
      invariant accumulator == Accumulated(xs[..i], separator)
    {
      assert xs[..i + 1][..i] == xs[..i];
      accumulator := accumulator + (separator + op(olist[i]));
    }
    assert xs[..|olist|] == xs;
    str := accumulator;
    if olist != [] { AccumulatedIsJoin(xs, separator); }
    if noFrontSep && |str| > 0 {
      str := str[1..];
    }
    assert separator == "" ==> separator + Join(xs, separator) == Join(xs, "");
  }
}

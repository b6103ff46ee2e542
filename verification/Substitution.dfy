/** Replacing every occurrence of a key, in the string that is being searched. */
module Substitution {
  import opened CStrings
  import opened Trimming
  import opened ItemLists
  import opened ItemLaws

  /** One pass over the original text: at each place, either the key starts there and the
      value is written for it, or one character is copied. Values are never read again. */
  function Replaced(s: string, key: string, value: string): string
    requires key != ""
    decreases |s|
  {
    if s == "" then ""
    else if key <= s then value + Replaced(s[|key|..], key, value)
    else [s[0]] + Replaced(s[1..], key, value)
  }

  /** `string::find`: the first place at or behind `from` where the key occurs, or -1. */
  function Find(s: string, key: string, from: nat): (r: int)
    requires key != ""
    ensures r == -1 || from <= r <= |s| - |key|
    ensures r >= 0 ==> key <= s[r..]
    ensures forall i | from <= i < (if r < 0 then |s| else r) :: !(key <= s[i..])
    decreases |s| - from
  {
    if from >= |s| then -1
    else if key <= s[from..] then from
    else Find(s, key, from + 1)
  }

  /** Text in which the key does not start is copied. */
  lemma {:induction false} ReplacedSkip(s: string, key: string, value: string, from: nat, i: nat)
    requires key != "" && from <= i <= |s|
    requires forall j | from <= j < i :: !(key <= s[j..])
    ensures Replaced(s[from..], key, value) == s[from..i] + Replaced(s[i..], key, value)
    decreases i - from
  {
    if from < i {
      ReplacedSkip(s, key, value, from + 1, i);
      ReplacedCopy(s, key, value, from);
      assert s[from..i] == [s[from]] + s[from + 1..i];
      Assoc([s[from]], s[from + 1..i], Replaced(s[i..], key, value));
    }
  }

  lemma ReplacedCopy(s: string, key: string, value: string, i: nat)
    requires key != "" && i < |s| && !(key <= s[i..])
    ensures Replaced(s[i..], key, value) == [s[i]] + Replaced(s[i + 1..], key, value)
  {
    assert s[i..][1..] == s[i + 1..];
  }

  lemma ReplacedHead(s: string, key: string, value: string, i: nat)
    requires key != "" && i <= |s| && key <= s[i..]
    ensures Replaced(s[i..], key, value) == value + Replaced(s[i + |key|..], key, value)
  {
    assert s[i..][|key|..] == s[i + |key|..];
  }

  /** `subst`: searches the string it has already written into, always behind the last value. */
  method Subst(key: string, value: string, form0: string) returns (oPage: string)
    requires key != ""
    ensures oPage == Replaced(form0, key, value)
  {
    var form := form0;
    var where := 0;
    var prevWhere := 0;
    oPage := "";
    while where >= 0
      invariant 0 <= prevWhere <= |form|
      invariant Resumed(form, key, value, prevWhere) == Replaced(form0, key, value)
      decreases |form| - prevWhere
    {
      where := Find(form, key, prevWhere);
      if where >= 0 {
        RoundStep(form, key, value, prevWhere, where);
        form := form[..where] + value + form[where + |key|..];
        prevWhere := where + |value|;
      } else {
        NoneLeft(form, key, value, prevWhere);
        return form;
      }
    }
  }

  /** What is left to be done when the text in front of `from` is finished. */
  ghost function Resumed(form: string, key: string, value: string, from: nat): string
    requires key != "" && from <= |form|
  {
    form[..from] + Replaced(form[from..], key, value)
  }

  /** One round of `subst`: the string that is written into continues to stand for the pass
      over the original text, and the part still to be searched shrinks by at least the
      length of the key. */
  lemma RoundStep(form: string, key: string, value: string, from: nat, where: nat)
    requires key != "" && from <= where == Find(form, key, from)
    ensures var form', from' := form[..where] + value + form[where + |key|..], where + |value|;
      && Resumed(form', key, value, from') == Resumed(form, key, value, from)
      && |form'| - from' <= |form| - from - |key|
  {
    var done, copied, next := form[..from], form[from..where], form[where + |key|..];
    FoundStep(form, key, value, from, where);
    assert form[..where] == done + copied;
    ResumedBehind(done + copied + value, next, key, value);
    Assoc(done, copied + value, Replaced(next, key, value));
    Assoc(done, copied, value);
  }

  lemma ResumedBehind(done: string, next: string, key: string, value: string)
    requires key != ""
    ensures Resumed(done + next, key, value, |done|) == done + Replaced(next, key, value)
  {
    assert (done + next)[|done|..] == next && (done + next)[..|done|] == done;
  }

  lemma FoundStep(form: string, key: string, value: string, from: nat, where: nat)
    requires key != "" && from <= where == Find(form, key, from)
    ensures Replaced(form[from..], key, value)
         == form[from..where] + value + Replaced(form[where + |key|..], key, value)
  {
    ReplacedSkip(form, key, value, from, where);
    ReplacedHead(form, key, value, where);
    Assoc(form[from..where], value, Replaced(form[where + |key|..], key, value));
  }

  lemma NoneLeft(form: string, key: string, value: string, from: nat)
    requires key != "" && from <= |form| && Find(form, key, from) < 0
    ensures form == form[..from] + Replaced(form[from..], key, value)
  {
    ReplacedSkip(form, key, value, from, |form|);
    assert form[from..|form|] + "" == form[from..];
  }

  // ----- what the pass is -----

  /** The pieces of a text between the keys that the pass replaces. */
  function Pieces(s: string, key: string): (r: seq<string>)
    requires key != ""
    ensures r != []
    decreases |s|
  {
    if s == "" then [""]
    else if key <= s then [""] + Pieces(s[|key|..], key)
    else
      var r := Pieces(s[1..], key);
      [[s[0]] + r[0]] + r[1..]
  }

  lemma JoinGrow(c: char, xs: seq<string>, sep: string)
    requires xs != []
    ensures Join([[c] + xs[0]] + xs[1..], sep) == [c] + Join(xs, sep)
  {
    if |xs| > 1 {
      JoinCons([c] + xs[0], xs[1..], sep);
      Assoc([c], xs[0] + sep, Join(xs[1..], sep));
    }
  }

  lemma ReplacedOfKey(t: string, key: string, value: string)
    requires key != ""
    ensures Replaced(key + t, key, value) == value + Replaced(t, key, value)
  {
    assert (key + t)[|key|..] == t;
  }

  lemma ReplacedOfChar(c: char, t: string, key: string, value: string)
    requires key != "" && !(key <= [c] + t)
    ensures Replaced([c] + t, key, value) == [c] + Replaced(t, key, value)
  {
    assert ([c] + t)[1..] == t;
  }

  lemma PiecesOfKey(t: string, key: string)
    requires key != ""
    ensures Pieces(key + t, key) == [""] + Pieces(t, key)
  {
    assert (key + t)[|key|..] == t;
  }

  lemma PiecesOfChar(c: char, t: string, key: string)
    requires key != "" && !(key <= [c] + t)
    ensures Pieces([c] + t, key) == [[c] + Pieces(t, key)[0]] + Pieces(t, key)[1..]
  {
    assert ([c] + t)[1..] == t;
  }

  /** The value is written once for each of the keys that the pieces were cut apart at. */
  lemma {:induction false} ReplacedIsJoin(s: string, key: string, value: string)
    requires key != ""
    ensures Replaced(s, key, value) == Join(Pieces(s, key), value)
    decreases |s|
  {
    if s == "" {
    } else if key <= s {
      var t := s[|key|..];
      assert s == key + t;
      ReplacedIsJoin(t, key, value);
      ReplacedOfKey(t, key, value);
      PiecesOfKey(t, key);
      JoinCons("", Pieces(t, key), value);
    } else {
      var c, t := s[0], s[1..];
      assert s == [c] + t;
      ReplacedIsJoin(t, key, value);
      ReplacedOfChar(c, t, key, value);
      PiecesOfChar(c, t, key);
      JoinGrow(c, Pieces(t, key), value);
    }
  }

  lemma {:induction false} ReplacedByItself(s: string, key: string)
    requires key != ""
    ensures Replaced(s, key, key) == s
    decreases |s|
  {
    if s == "" {
    } else if key <= s {
      var t := s[|key|..];
      assert s == key + t;
      ReplacedByItself(t, key);
      ReplacedOfKey(t, key, key);
    } else {
      var c, t := s[0], s[1..];
      assert s == [c] + t;
      ReplacedByItself(t, key);
      ReplacedOfChar(c, t, key, key);
    }
  }

  /** The key's first occurrence in `x + key` is the one at the end of `x`. */
  predicate KeyFree(x: string, tail: string, key: string) {
    forall j | 0 <= j < |x| :: !(key <= (x + tail)[j..])
  }

  /** Cut leftmost first: no key starts inside a piece, not even one that would run into the
      key that ends the piece. */
  predicate LeftmostCut(ps: seq<string>, key: string) {
    && ps != []
    && (forall i | 0 <= i < |ps| - 1 :: KeyFree(ps[i], key, key))
    && KeyFree(Last(ps), "", key)
  }

  lemma KeyFreeGrow(c: char, x: string, tail: string, key: string)
    requires KeyFree(x, tail, key) && !(key <= [c] + x + tail)
    ensures KeyFree([c] + x, tail, key)
  {
    var y := [c] + x;
    forall j | 0 <= j < |y| ensures !(key <= (y + tail)[j..]) {
      if j == 0 {
        assert (y + tail)[0..] == [c] + x + tail;
      } else {
        assert (y + tail)[j..] == (x + tail)[j - 1..];
      }
    }
  }

  lemma KeyFreeShrink(c: char, x: string, tail: string, key: string)
    requires KeyFree([c] + x, tail, key)
    ensures KeyFree(x, tail, key) && !(key <= [c] + x + tail)
  {
    var y := [c] + x;
    assert (y + tail)[0..] == [c] + x + tail;
    forall j | 0 <= j < |x| ensures !(key <= (x + tail)[j..]) {
      assert (y + tail)[j + 1..] == (x + tail)[j..];
    }
  }

  /** The key stands in front of a piece and what ends it exactly if it stands in front of it all. */
  lemma KeyInFront(c: char, x: string, rest: seq<string>, key: string)
    ensures key <= [c] + x + (if rest == [] then "" else key) <==> key <= [c] + Join([x] + rest, key)
  {
    if rest == [] {
      assert [c] + x + "" == [c] + Join([x], key);
    } else {
      JoinCons(x, rest, key);
      Assoc([c], x + key, Join(rest, key));
      Assoc([c], x, key);
    }
  }

  /** With one more character in front of its first piece a cut is still leftmost first. */
  lemma LeftmostGrow(c: char, x: string, rest: seq<string>, key: string)
    requires LeftmostCut([x] + rest, key) && !(key <= [c] + Join([x] + rest, key))
    ensures LeftmostCut([[c] + x] + rest, key)
  {
    var ps, qs := [[c] + x] + rest, [x] + rest;
    KeyInFront(c, x, rest, key);
    assert Last(ps) == if rest == [] then [c] + x else Last(rest);
    assert rest != [] ==> KeyFree(qs[0], key, key);
    KeyFreeGrow(c, x, if rest == [] then "" else key, key);
    forall i | 0 <= i < |ps| - 1 ensures KeyFree(ps[i], key, key) {
      if i > 0 { assert ps[i] == qs[i]; }
    }
  }

  lemma LeftmostCons(ps: seq<string>, key: string)
    requires LeftmostCut(ps, key)
    ensures LeftmostCut([""] + ps, key)
  {
    var qs := [""] + ps;
    assert Last(qs) == Last(ps);
    forall i | 0 <= i < |qs| - 1 ensures KeyFree(qs[i], key, key) {
      if i > 0 { assert qs[i] == ps[i - 1]; }
    }
  }

  lemma {:induction false} PiecesLeftmost(s: string, key: string)
    requires key != ""
    ensures LeftmostCut(Pieces(s, key), key)
    decreases |s|
  {
    if s == "" {
    } else if key <= s {
      var t := s[|key|..];
      assert s == key + t;
      PiecesLeftmost(t, key);
      PiecesOfKey(t, key);
      LeftmostCons(Pieces(t, key), key);
    } else {
      var c, t := s[0], s[1..];
      assert s == [c] + t;
      PiecesLeftmost(t, key);
      PiecesOfChar(c, t, key);
      PiecesJoin(t, key);
      var qs := Pieces(t, key);
      assert qs == [qs[0]] + qs[1..];
      LeftmostGrow(c, qs[0], qs[1..], key);
    }
  }

  lemma PiecesJoin(s: string, key: string)
    requires key != ""
    ensures Join(Pieces(s, key), key) == s
  {
    ReplacedIsJoin(s, key, key);
    ReplacedByItself(s, key);
  }

  lemma LeftmostTail(ps: seq<string>, key: string)
    requires LeftmostCut(ps, key) && |ps| > 1
    ensures LeftmostCut(ps[1..], key)
  {
    forall i | 0 <= i < |ps[1..]| - 1 ensures KeyFree(ps[1..][i], key, key) {
      assert ps[1..][i] == ps[i + 1];
    }
  }

  /** Without the first character of its first piece a cut is still leftmost first. */
  lemma LeftmostShrink(c: char, x: string, rest: seq<string>, key: string)
    requires LeftmostCut([[c] + x] + rest, key)
    ensures LeftmostCut([x] + rest, key) && !(key <= [c] + Join([x] + rest, key))
  {
    var ps, qs, tail := [[c] + x] + rest, [x] + rest, if rest == [] then "" else key;
    assert ps[0] == [c] + x && (rest != [] ==> KeyFree(ps[0], key, key)) && (rest == [] ==> Last(ps) == ps[0]);
    KeyFreeShrink(c, x, tail, key);
    assert Last(ps) == if rest == [] then [c] + x else Last(rest);
    forall i | 0 <= i < |qs| - 1 ensures KeyFree(qs[i], key, key) {
      if i > 0 { assert qs[i] == ps[i]; }
    }
    KeyInFront(c, x, rest, key);
  }

  lemma {:induction false} LeftmostCutUnique(ps: seq<string>, key: string)
    requires key != "" && LeftmostCut(ps, key)
    ensures ps == Pieces(Join(ps, key), key)
    decreases |ps|, |ps[0]|
  {
    var rest := ps[1..];
    assert ps == [ps[0]] + rest;
    if ps[0] != "" {
      var c, x := ps[0][0], ps[0][1..];
      assert ps[0] == [c] + x;
      LeftmostShrink(c, x, rest, key);
      LeftmostCutUnique([x] + rest, key);
      JoinGrow(c, [x] + rest, key);
      PiecesOfChar(c, Join([x] + rest, key), key);
    } else if rest != [] {
      LeftmostTail(ps, key);
      LeftmostCutUnique(rest, key);
      JoinCons("", rest, key);
      assert "" + key + Join(rest, key) == key + Join(rest, key);
      PiecesOfKey(Join(rest, key), key);
    }
  }

  /** `subst` replaces exactly the leftmost non-overlapping keys: its pieces are the one way
      of cutting the text at keys, leftmost first; the result joins them with the value. */
  lemma PiecesExactly(s: string, key: string, ps: seq<string>)
    requires key != ""
    ensures ps == Pieces(s, key) <==> LeftmostCut(ps, key) && Join(ps, key) == s
  {
    PiecesLeftmost(s, key);
    PiecesJoin(s, key);
    if LeftmostCut(ps, key) { LeftmostCutUnique(ps, key); }
  }

  lemma {:induction false} JoinLength(ps: seq<string>, a: string, b: string)
    requires ps != []
    ensures |Join(ps, a)| - |Join(ps, b)| == (|ps| - 1) * (|a| - |b|)
  {
    if |ps| > 1 {
      JoinLength(ps[1..], a, b);
      assert (|ps| - 1) * (|a| - |b|) == (|ps| - 2) * (|a| - |b|) + (|a| - |b|);
    }
  }

  /** The length changes by the difference of value and key for every replacement. */
  lemma {:induction false} ReplacedLength(s: string, key: string, value: string)
    requires key != ""
    ensures |Replaced(s, key, value)| == |s| + (|Pieces(s, key)| - 1) * (|value| - |key|)
  {
    ReplacedIsJoin(s, key, value);
    PiecesLeftmost(s, key);
    PiecesJoin(s, key);
    JoinLength(Pieces(s, key), value, key);
  }

  // ----- substitution inside a list -----

  function ReplacedAll(xs: seq<string>, key: string, value: string): (r: seq<string>)
    requires key != ""
    ensures |r| == |xs| && forall i | 0 <= i < |xs| :: r[i] == Replaced(xs[i], key, value)
  {
    seq(|xs|, i requires 0 <= i < |xs| => Replaced(xs[i], key, value))
  }

  /** A key without `c` does not reach over a `c`. */
  lemma KeyStops(a: string, c: char, b: string, key: string)
    requires c !in key
    ensures key <= a + [c] + b <==> key <= a
  {
    var s := a + [c] + b;
    assert s[|a|] == c;
    if |a| < |key| { assert key[|a|] != c; }
  }

  lemma {:induction false} ReplacedAround(a: string, c: char, b: string, key: string, value: string)
    requires key != "" && c !in key
    ensures Replaced(a + [c] + b, key, value) == Replaced(a, key, value) + [c] + Replaced(b, key, value)
    decreases |a|
  {
    var s := a + [c] + b;
    var R := Replaced(b, key, value);
    KeyStops(a, c, b, key);
    if a == "" {
      assert s[0] == c && s[1..] == b;
    } else if key <= a {
      var t := a[|key|..];
      assert s[|key|..] == t + [c] + b;
      ReplacedAround(t, c, b, key, value);
      Assoc(value, Replaced(t, key, value) + [c], R);
      Assoc(value, Replaced(t, key, value), [c]);
    } else {
      assert s[1..] == a[1..] + [c] + b;
      ReplacedAround(a[1..], c, b, key, value);
      Assoc([a[0]], Replaced(a[1..], key, value) + [c], R);
      Assoc([a[0]], Replaced(a[1..], key, value), [c]);
    }
  }

  /** A key without the separator is replaced in each item on its own. */
  lemma {:induction false} ReplacedInJoin(xs: seq<string>, c: char, key: string, value: string)
    requires key != "" && c !in key
    ensures Replaced(Join(xs, [c]), key, value) == Join(ReplacedAll(xs, key, value), [c])
  {
    if |xs| > 1 {
      ReplacedAround(xs[0], c, Join(xs[1..], [c]), key, value);
      ReplacedInJoin(xs[1..], c, key, value);
      assert ReplacedAll(xs, key, value)[1..] == ReplacedAll(xs[1..], key, value);
    }
  }

  lemma {:induction false} ReplacedShort(s: string, key: string, value: string)
    requires |s| < |key|
    ensures Replaced(s, key, value) == s
  {
    if s != "" { ReplacedShort(s[1..], key, value); }
  }

  lemma ReplacedKey(key: string, value: string)
    requires key != ""
    ensures Replaced(key, key, value) == value
  {
    assert key[|key|..] == "" && value + "" == value;
  }

  lemma JoinTwo(a: string, b: string, sep: string)
    ensures Join([a, b], sep) == a + sep + b
  {
    assert [a, b] == [a] + [b];
    JoinCons(a, [b], sep);
  }

  /** A key that holds the separator is found across two items, and in neither of them. */
  lemma KeyAcross(c: char, key: string, value: string) returns (xs: seq<string>)
    requires c in key
    ensures Replaced(Join(xs, [c]), key, value) == value && Join(ReplacedAll(xs, key, value), [c]) == key
  {
    var Split(a, b) := Cut(key, c);
    xs := [a, b];
    JoinTwo(a, b, [c]);
    ReplacedKey(key, value);
    ReplacedShort(a, key, value);
    ReplacedShort(b, key, value);
    assert ReplacedAll(xs, key, value) == xs;
  }

  /** Replacing a key in every joined list is replacing it in the items if and only if the key
      does not hold the separator, or is replaced by itself. */
  lemma ReplacedInJoinExactly(c: char, key: string, value: string)
    requires key != ""
    ensures (forall xs :: Replaced(Join(xs, [c]), key, value) == Join(ReplacedAll(xs, key, value), [c]))
       <==> c !in key || value == key
  {
    if c !in key {
      forall xs ensures Replaced(Join(xs, [c]), key, value) == Join(ReplacedAll(xs, key, value), [c]) {
        ReplacedInJoin(xs, c, key, value);
      }
    } else if value == key {
      forall xs: seq<string> ensures Replaced(Join(xs, [c]), key, value) == Join(ReplacedAll(xs, key, value), [c]) {
        ReplacedByItself(Join(xs, [c]), key);
        forall i | 0 <= i < |xs| ensures Replaced(xs[i], key, key) == xs[i] { ReplacedByItself(xs[i], key); }
        assert ReplacedAll(xs, key, value) == xs;
      }
    } else {
      var xs := KeyAcross(c, key, value);
    }
  }

  predicate Occurs(key: string, s: string) {
    key <= s || (s != "" && Occurs(key, s[1..]))
  }

  /** Where a character other than those of the key comes from. */
  lemma {:induction false} ReplacedHolds(s: string, c: char, key: string, value: string)
    requires key != "" && c !in key
    ensures c in Replaced(s, key, value) <==> c in s || (c in value && Occurs(key, s))
    decreases |s|
  {
    if s != "" {
      if key <= s {
        assert s == key + s[|key|..];
        ReplacedHolds(s[|key|..], c, key, value);
      } else {
        assert s == [s[0]] + s[1..];
        ReplacedHolds(s[1..], c, key, value);
      }
    }
  }

  lemma BlankConcat(a: string, b: string)
    ensures Blank(a + b) <==> Blank(a) && Blank(b)
  {
    assert forall i | 0 <= i < |a| :: a[i] == (a + b)[i];
    assert forall i | 0 <= i < |b| :: b[i] == (a + b)[|a| + i];
  }

  /** A text becomes blank, or empty, if what is left of it without the keys is so, and so is the value
      if it is used. */
  lemma {:induction false} ReplacedBlank(s: string, key: string, value: string)
    requires key != ""
    ensures Blank(Replaced(s, key, value)) <==> Blank(Replaced(s, key, "")) && (Occurs(key, s) ==> Blank(value))
    ensures Replaced(s, key, value) == "" <==> Replaced(s, key, "") == "" && (Occurs(key, s) ==> value == "")
    decreases |s|
  {
    if s != "" {
      if key <= s {
        var t := s[|key|..];
        ReplacedBlank(t, key, value);
        BlankConcat(value, Replaced(t, key, value));
        assert "" + Replaced(t, key, "") == Replaced(t, key, "");
      } else {
        var t := s[1..];
        ReplacedBlank(t, key, value);
        BlankConcat([s[0]], Replaced(t, key, value));
        BlankConcat([s[0]], Replaced(t, key, ""));
      }
    }
  }

  /** What is left when the value replaces the keys in a text is not blank, or not even empty. */
  predicate StaysVisible(x: string, key: string, value: string)
    requires key != ""
  {
    !Blank(Replaced(x, key, "")) || (Occurs(key, x) && !Blank(value))
  }

  predicate StaysNonEmpty(x: string, key: string, value: string)
    requires key != ""
  {
    Replaced(x, key, "") != "" || (Occurs(key, x) && value != "")
  }

  /** No item holds the separator, or gets it by the value, and the last one stays visible, or is the
      only one and does not become empty. */
  predicate Replaceable(xs: seq<string>, c: char, key: string, value: string)
    requires key != ""
  {
    && (forall x | x in xs :: c !in x && (c in value ==> !Occurs(key, x)))
    && (xs == [] || StaysVisible(Last(xs), key, value) || (|xs| == 1 && StaysNonEmpty(xs[0], key, value)))
  }

  /** That is when the items with the key replaced survive being joined and split again. */
  lemma ReplacedSurvive(xs: seq<string>, c: char, key: string, value: string)
    requires key != "" && c !in key
    ensures Survive(ReplacedAll(xs, key, value), c) <==> Replaceable(xs, c, key, value)
  {
    var ys := ReplacedAll(xs, key, value);
    AllFree(xs, c, key, value);
    if xs != [] {
      assert Last(ys) == Replaced(Last(xs), key, value);
      ReplacedBlank(Last(xs), key, value);
    }
  }

  lemma AllFree(xs: seq<string>, c: char, key: string, value: string)
    requires key != "" && c !in key
    ensures (forall y | y in ReplacedAll(xs, key, value) :: c !in y)
       <==> forall x | x in xs :: c !in x && (c in value ==> !Occurs(key, x))
  {
    var ys := ReplacedAll(xs, key, value);
    forall i | 0 <= i < |xs| ensures c in ys[i] <==> c in xs[i] || (c in value && Occurs(key, xs[i])) {
      ReplacedHolds(xs[i], c, key, value);
    }
    if forall y | y in ys :: c !in y {
      forall x | x in xs ensures c !in x && (c in value ==> !Occurs(key, x)) {
        var i :| 0 <= i < |xs| && xs[i] == x;
        assert ys[i] in ys;
      }
    } else {
      var y :| y in ys && c in y;
      var i :| 0 <= i < |ys| && ys[i] == y;
      assert xs[i] in xs;
    }
  }

  /** Expanding a variable in a whole command list and then splitting the list gives each
      command with the variable expanded in it, trimmed, if and only if the commands allow it. */
  lemma {:induction false} ItemsOfReplacedJoin(xs: seq<string>, c: char, key: string, value: string)
    requires key != "" && !IsSpace(c) && c !in key
    ensures ItemsOf(Replaced(Join(xs, [c]), key, value), c) == TrimAll(ReplacedAll(xs, key, value))
       <==> Replaceable(xs, c, key, value)
  {
    ReplacedInJoin(xs, c, key, value);
    ItemsOfJoinExactly(ReplacedAll(xs, key, value), c);
    ReplacedSurvive(xs, c, key, value);
  }
}

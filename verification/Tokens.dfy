/** Words of a text: `token`, and item lists split at blanks. */
module Tokens {
  import opened CStrings
  import opened Trimming
  import opened ItemLists
  import opened ItemLaws

  /** The next word and the text behind it. */
  function TokenOf(s: string): (r: Split)
    ensures !Blank(s) ==> r.head != "" && |r.rest| < |s|
  {
    var w := TrimLeft(s);
    var k := LeadingInk(w);
    Split(w[..k], w[k..])
  }

  /** `token`: returns the next word, which is `rtoken` in `s == p + rtoken + rest`, and moves the pointer
      behind it. The buffer is as it was. */
  method Token(buf: array<char>, strPtr: nat, ghost s: string)
    returns (rtoken: string, next: nat, ghost p: string, ghost rest: string)
    requires Holds(buf[..], strPtr, s)
    modifies buf
    ensures buf[..] == old(buf[..])
    ensures s == p + rtoken + rest && next == strPtr + |p| + |rtoken| && Holds(buf[..], next, rest)
    ensures Blank(p) && forall i | 0 <= i < |rtoken| :: !IsSpace(rtoken[i])
    ensures (rest == "" || IsSpace(rest[0])) && (rtoken == "" ==> rest == "")
    ensures Split(rtoken, rest) == TokenOf(s)
  {
    var tmp := SkipWhite(buf, strPtr, s);
    p := s[..tmp - strPtr];
    ghost var w := s[tmp - strPtr..];
    var end := SkipToWhite(buf, tmp, w);
    ghost var k := end - tmp;
    rest := w[k..];
    ghost var x := w[..k];
    InkEnds(w, k);
    TokenFound(s, p, w, x, rest, k);
    rtoken := CopyUntil(buf, tmp, end, w);
    assert rtoken == x;
    next := end;
  }

  lemma NoInkInFront(w: string)
    requires w == "" || !IsSpace(w[0])
    ensures LeadingInk(w) == 0 ==> w == ""
  {}

  lemma TokenFound(s: string, p: string, w: string, x: string, rest: string, k: nat)
    requires p == s[..LeadingBlanks(s)] && w == TrimLeft(s) && k == LeadingInk(w)
    requires x == w[..k] && rest == w[k..]
    ensures TokenOf(s) == Split(x, rest) && s == p + x + rest && Blank(p) && (x == "" ==> rest == "")
  {
    NoInkInFront(w);
    assert s == p + w;
    assert w == x + rest;
    Assoc(p, x, rest);
  }

  /** On whitespace alone there is no token, and nothing is left. */
  lemma TokenOfBlank(s: string)
    requires Blank(s)
    ensures TokenOf(s) == Split("", "") && Words(s) == []
  {
    TrimLeftUnique(s, "");
    assert s + "" == s;
  }

  /** The words that repeated calls of `token` return until only whitespace is left. */
  function Words(s: string): seq<string>
    decreases |s|
  {
    if Blank(s) then [] else [TokenOf(s).head] + Words(TokenOf(s).rest)
  }

  predicate IsWord(x: string) {
    x != "" && forall i | 0 <= i < |x| :: !IsSpace(x[i])
  }

  lemma TokenUnique(p: string, x: string, rest: string)
    requires Blank(p) && IsWord(x) && (rest == "" || IsSpace(rest[0]))
    ensures TokenOf(p + x + rest) == Split(x, rest)
    ensures !Blank(p + x + rest)
  {
    var s := p + x + rest;
    assert s == p + (x + rest);
    TrimLeftUnique(p, x + rest);
    LeadingInkUnique(x + rest, |x|);
    assert s[|p|] == x[0];
  }

  lemma InkParts(w: string)
    requires w != "" && !IsSpace(w[0])
    ensures var k := LeadingInk(w);
      IsWord(w[..k]) && (w[k..] == "" || IsSpace(w[k..][0])) && w == w[..k] + w[k..]
  {
    assert w[LeadingInk(w)..] == "" || w[LeadingInk(w)..][0] == w[LeadingInk(w)];
  }

  lemma BlankParts(s: string)
    requires !Blank(s)
    ensures Blank(s[..LeadingBlanks(s)]) && s == s[..LeadingBlanks(s)] + TrimLeft(s)
    ensures TrimLeft(s) != "" && !IsSpace(TrimLeft(s)[0])
  {}

  lemma TokenParts(s: string) returns (p: string)
    requires !Blank(s)
    ensures var Split(x, rest) := TokenOf(s);
      Blank(p) && IsWord(x) && (rest == "" || IsSpace(rest[0])) && s == p + x + rest
  {
    p := s[..LeadingBlanks(s)];
    var w := TrimLeft(s);
    BlankParts(s);
    InkParts(w);
    Assoc(p, w[..LeadingInk(w)], w[LeadingInk(w)..]);
  }

  lemma WordsCons(p: string, x: string, rest: string)
    requires Blank(p) && IsWord(x) && (rest == "" || IsSpace(rest[0]))
    ensures Words(p + x + rest) == [x] + Words(rest)
  {
    TokenUnique(p, x, rest);
  }

  /** Whitespace behind a text adds no word. */
  lemma {:induction false} WordsPaddedRight(s: string, q: string)
    requires Blank(q)
    ensures Words(s + q) == Words(s)
    decreases |s|
  {
    if !Blank(s) {
      var Split(x, rest) := TokenOf(s);
      var p := TokenParts(s);
      Assoc(p + x, rest, q);
      WordsCons(p, x, rest + q);
      WordsCons(p, x, rest);
      WordsPaddedRight(rest, q);
    }
  }

  /** Nor does whitespace in front of it. */
  lemma WordsPaddedLeft(p: string, s: string)
    requires Blank(p)
    ensures Words(p + s) == Words(s)
  {
    if !Blank(s) {
      var Split(x, rest) := TokenOf(s);
      var b := TokenParts(s);
      Assoc(p, b + x, rest);
      Assoc(p, b, x);
      WordsCons(p + b, x, rest);
      WordsCons(b, x, rest);
    }
  }

  lemma WordsTrimmed(s: string)
    ensures Words(Trimmed(s)) == Words(s)
  {
    var p, q := TrimmedParts(s);
    WordsPaddedRight(p + Trimmed(s), q);
    WordsPaddedLeft(p, Trimmed(s));
  }

  lemma WordsTrimLeft(s: string)
    ensures Words(TrimLeft(s)) == Words(s)
  {
    var m := LeadingBlanks(s);
    assert s == s[..m] + TrimLeft(s);
    WordsPaddedLeft(s[..m], TrimLeft(s));
  }

  /** Cutting a trimmed text at its first blank cuts off its first word. */
  lemma SplitPairIsToken(s: string, t: string)
    requires t == Trimmed(s) && t != "" && IsTrimmed(t)
    ensures var Split(name, rest) := SplitPair(s, ' ');
      && IsWord(name) && Words(t) == [name] + Words(rest)
      && (Blank(rest) ==> rest == "")
  {
    var k := LeadingInk(t);
    var rest := t[k..];
    assert "" + t[..k] + rest == t;
    WordsCons("", t[..k], rest);
    WordsTrimLeft(rest);
    if k < |t| { SkipSplit(t, k); }
  }

  /** `to_items` with the blank: the words of the text. An all-blank nonempty text is one
      empty item, where `token` finds no word. */
  lemma {:induction false} ItemsAreWords(s: string)
    ensures ItemsOf(s, ' ') == if s != "" && Blank(s) then [""] else Words(s)
    decreases |s|
  {
    var Split(name, rest) := SplitPair(s, ' ');
    TrimmedBlank(s);
    if s == "" {
    } else if Blank(s) {
      assert name == "" && rest == "";
      TrimmedBlank("");
    } else {
      var p, q := TrimmedParts(s);
      SplitPairIsToken(s, Trimmed(s));
      TrimmedOfTrimmed(name);
      ItemsAreWords(rest);
      WordsTrimmed(s);
    }
  }

  /** Both ways of reading words agree on exactly the texts that are empty or not blank. */
  lemma TokensAgreeWithItems(s: string)
    ensures ItemsOf(s, ' ') == Words(s) <==> s == "" || !Blank(s)
  {
    ItemsAreWords(s);
  }

  lemma {:induction false} WordsAreWords(s: string)
    ensures forall x | x in Words(s) :: IsWord(x)
    decreases |s|
  {
    if !Blank(s) {
      var p := TokenParts(s);
      WordsAreWords(TokenOf(s).rest);
    }
  }

  lemma WordsOne(x: string)
    requires IsWord(x)
    ensures Words(x) == [x]
  {
    WordsCons("", x, "");
    assert "" + x + "" == x;
  }

  lemma {:induction false} WordsOfJoin(xs: seq<string>)
    requires forall x | x in xs :: IsWord(x)
    ensures Words(Join(xs, " ")) == xs
  {
    if xs != [] {
      var x, ys := xs[0], xs[1..];
      assert x in xs && xs == [x] + ys;
      if ys == [] {
        WordsOne(x);
      } else {
        WordsOfJoin(ys);
        JoinCons(x, ys, " ");
        WordsStep(x, Join(ys, " "));
      }
    }
  }

  lemma WordsInFront(x: string, r: string)
    requires IsWord(x) && (r == "" || IsSpace(r[0]))
    ensures Words(x + r) == [x] + Words(r)
  {
    WordsCons("", x, r);
    assert "" + x == x;
  }

  lemma WordsStep(x: string, rest: string)
    requires IsWord(x)
    ensures Words(x + " " + rest) == [x] + Words(rest)
  {
    var r := " " + rest;
    WordsPaddedLeft(" ", rest);
    assert r[0] == ' ';
    WordsInFront(x, r);
    Assoc(x, " ", rest);
  }

  /** Joining with blanks and splitting again gives the items back if and only if every one
      of them is a word. */
  lemma WordsRoundTrip(xs: seq<string>)
    ensures ItemsOf(Join(xs, " "), ' ') == xs <==> forall x | x in xs :: IsWord(x)
  {
    var J := Join(xs, " ");
    ItemsAreWords(J);
    WordsAreWords(J);
    if forall x | x in xs :: IsWord(x) {
      WordsOfJoin(xs);
      if xs != [] {
        assert xs[0] in xs;
        assert J[0] == xs[0][0];
      }
    }
  }
}

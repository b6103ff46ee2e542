/** What the layout of a configuration file may change: pieces of files, blank lines, padding, comments
    and the whitespace around colons. */
module ConfigurationLayout {
  import opened CStrings
  import opened Trimming
  import opened LineSplitting
  import opened ItemLists
  import opened ItemLaws
  import opened Configuration
  import opened ConfigurationLaws

  lemma {:induction false} ClassifyConcat(a: seq<string>, b: seq<string>)
    ensures ClassifyAll(a + b) == ClassifyAll(a) + ClassifyAll(b)
  {
    if a == [] {
      assert a + b == b;
    } else {
      assert (a + b)[1..] == a[1..] + b;
      ClassifyConcat(a[1..], b);
      Assoc([Classify(a[0])], ClassifyAll(a[1..]), ClassifyAll(b));
    }
  }

  lemma ClassifyOne(x: string)
    ensures ClassifyAll([x]) == [Classify(x)]
  {
    assert [x][1..] == [];
  }

  // ----- pieces of files -----

  /** Reading a file A followed by a file B is reading B after A, if A ends with a newline and
      with all its blocks closed. */
  lemma ReadingInPieces(table: Table, A: string, B: string, noComments: bool)
    requires Ended(A) && ReadText(A, noComments).closed
    ensures var a, b, ab := ReadText(A, noComments), ReadText(B, noComments), ReadText(A + B, noComments);
      && ab.closed == b.closed
      && Store(table, ab.entries) == Store(Store(table, a.entries), b.entries)
  {
    ContentLinesConcat(A, B);
    ClassifyConcat(ContentLines(A), ContentLines(B));
    ReadConcat(ClassifyAll(ContentLines(A)), ClassifyAll(ContentLines(B)), noComments);
    StoreConcat(table, ReadText(A, noComments).entries, ReadText(B, noComments).entries);
  }

  // ----- layout -----

  /** A file with these lines; the last of them may lack its newline. */
  ghost predicate IsFileOf(text: string, xs: seq<string>) {
    OneLiners(xs) && (text == Unlines(xs) || (xs != [] && text + "\n" == Unlines(xs)))
  }

  /** Every text is a file of its lines. */
  lemma EveryTextIsFile(text: string)
    ensures IsFileOf(text, Lines(text))
  {
    UnlinesOfLines(text);
  }

  lemma LinesOfFile(text: string, xs: seq<string>)
    requires IsFileOf(text, xs)
    ensures ContentLines(text) == NonEmpty(TrimAll(xs))
  {
    if text == Unlines(xs) {
      LinesOfUnlines(xs, "");
      assert Unlines(xs) + "" == Unlines(xs);
    } else {
      var front, last := xs[..|xs| - 1], xs[|xs| - 1];
      assert xs == front + [last] && last in xs && forall x | x in front :: x in xs;
      UnlinesSnoc(front, last);
      assert text == (text + "\n")[..|text|] == Unlines(front) + last;
      LinesOfUnlines(front, last);
      if last == "" { LastIsEmpty(front); }
    }
  }

  lemma LastIsEmpty(front: seq<string>)
    ensures NonEmpty(TrimAll(front + [""])) == NonEmpty(TrimAll(front))
  {
    NonEmptyTrimConcat(front, [""]);
    TrimmedBlank("");
    NonEmptyOne("");
    assert TrimAll([""]) == [""];
  }

  lemma NonEmptyTrimConcat(a: seq<string>, b: seq<string>)
    ensures NonEmpty(TrimAll(a + b)) == NonEmpty(TrimAll(a)) + NonEmpty(TrimAll(b))
  {
    TrimAllConcat(a, b);
    NonEmptyConcat(TrimAll(a), TrimAll(b));
  }

  /** The lines of a file as the reader takes them. */
  function Taken(xs: seq<string>): seq<Line> {
    ClassifyAll(NonEmpty(TrimAll(xs)))
  }

  lemma FileIsRead(text: string, xs: seq<string>, noComments: bool)
    requires IsFileOf(text, xs)
    ensures ReadText(text, noComments) == Read(Taken(xs), noComments)
  {
    LinesOfFile(text, xs);
  }

  lemma TakenConcat(a: seq<string>, b: seq<string>)
    ensures Taken(a + b) == Taken(a) + Taken(b)
  {
    NonEmptyTrimConcat(a, b);
    ClassifyConcat(NonEmpty(TrimAll(a)), NonEmpty(TrimAll(b)));
  }

  lemma TakenOne(x: string)
    ensures Trimmed(x) == "" ==> Taken([x]) == []
    ensures Trimmed(x) != "" ==> Taken([x]) == [Classify(Trimmed(x))]
  {
    assert TrimAll([x]) == [Trimmed(x)];
    NonEmptyOne(Trimmed(x));
    if Trimmed(x) != "" { ClassifyOne(Trimmed(x)); }
  }

  /** A file, as the reader takes it. */
  lemma FileAround(s: string, a: seq<string>, xs: seq<string>, b: seq<string>, noComments: bool)
    requires IsFileOf(s, a + xs + b)
    ensures ReadText(s, noComments) == Read(Taken(a) + Taken(xs) + Taken(b), noComments)
  {
    FileIsRead(s, a + xs + b, noComments);
    TakenConcat(a + xs, b);
    TakenConcat(a, xs);
  }

  /** Behind the lines `a` it makes no difference whether `xs` or `ys` stand in a file, whatever comes
      behind them. */
  ghost predicate Interchangeable(a: seq<string>, xs: seq<string>, ys: seq<string>, noComments: bool) {
    forall b, s, t | IsFileOf(s, a + xs + b) && IsFileOf(t, a + ys + b) ::
      ReadText(s, noComments) == ReadText(t, noComments)
  }

  lemma TakenSame(a: seq<string>, xs: seq<string>, ys: seq<string>, noComments: bool)
    requires Taken(xs) == Taken(ys)
    ensures Interchangeable(a, xs, ys, noComments)
  {
    forall b, s, t | IsFileOf(s, a + xs + b) && IsFileOf(t, a + ys + b)
      ensures ReadText(s, noComments) == ReadText(t, noComments)
    {
      FileAround(s, a, xs, b, noComments);
      FileAround(t, a, ys, b, noComments);
    }
  }

  /** The files that end behind the lines in question tell them apart. */
  lemma ToldApart(a: seq<string>, xs: seq<string>, ys: seq<string>, b: seq<string>, noComments: bool)
    requires OneLiners(a + xs + b) && OneLiners(a + ys + b)
    requires Read(Taken(a) + Taken(xs) + Taken(b), noComments) != Read(Taken(a) + Taken(ys) + Taken(b), noComments)
    ensures !Interchangeable(a, xs, ys, noComments)
  {
    var s, t := Unlines(a + xs + b), Unlines(a + ys + b);
    assert IsFileOf(s, a + xs + b) && IsFileOf(t, a + ys + b);
    FileAround(s, a, xs, b, noComments);
    FileAround(t, a, ys, b, noComments);
  }

  lemma ToldAtEnd(a: seq<string>, xs: seq<string>, ys: seq<string>, noComments: bool)
    requires OneLiners(a + xs) && OneLiners(a + ys)
    requires Read(Taken(a) + Taken(xs), noComments) != Read(Taken(a) + Taken(ys), noComments)
    ensures !Interchangeable(a, xs, ys, noComments)
  {
    assert a + xs + [] == a + xs && a + ys + [] == a + ys;
    assert Taken(a) + Taken(xs) + Taken([]) == Taken(a) + Taken(xs);
    assert Taken(a) + Taken(ys) + Taken([]) == Taken(a) + Taken(ys);
    ToldApart(a, xs, ys, [], noComments);
  }

  lemma PageInFront(a: seq<string>, b: seq<string>, noComments: bool)
    requires OneLiners(a + b)
    ensures OneLiners(a) && ReadText(Unlines(a), noComments) == Read(Taken(a), noComments)
  {
    assert forall y | y in a :: y in a + b;
    FileIsRead(Unlines(a), a, noComments);
  }

  /** A blank line may stand anywhere. */
  lemma BlankLinesIgnored(a: seq<string>, w: string, noComments: bool)
    requires Blank(w)
    ensures Interchangeable(a, [w], [], noComments)
  {
    TrimmedBlank(w);
    TakenOne(w);
    TakenSame(a, [w], [], noComments);
  }

  /** Lines may be indented, and whitespace may follow them. */
  lemma PaddingIgnored(a: seq<string>, p: string, x: string, q: string, noComments: bool)
    requires Blank(p) && Blank(q)
    ensures Interchangeable(a, [p + x + q], [x], noComments)
  {
    TrimmedPadded(p, x, q);
    assert TrimAll([p + x + q]) == TrimAll([x]);
    TakenSame(a, [p + x + q], [x], noComments);
  }

  predicate IsCommentLine(x: string) {
    Trimmed(x) != "" && Trimmed(x)[0] == '#'
  }

  /** A line whose first visible character is `#` may stand anywhere if the reader skips
      comments, and inside a block in any case. */
  lemma CommentLinesIgnored(a: seq<string>, x: string, noComments: bool)
    requires IsCommentLine(x) && OneLiners(a) && (noComments || !ReadText(Unlines(a), noComments).closed)
    ensures Interchangeable(a, [x], [], noComments)
  {
    assert a + [] == a && Taken(a) + [] == Taken(a);
    PageInFront(a, [], noComments);
    TakenOne(x);
    forall b, s, t | IsFileOf(s, a + [x] + b) && IsFileOf(t, a + [] + b)
      ensures ReadText(s, noComments) == ReadText(t, noComments)
    {
      FileAround(s, a, [x], b, noComments);
      FileAround(t, a, [], b, noComments);
      CommentIgnored(Taken(a), Classify(Trimmed(x)), Taken(b), noComments);
    }
  }

  lemma CommentLineChanges(a: seq<string>, x: string)
    requires OneLiners(a + [x]) && IsCommentLine(x) && ReadText(Unlines(a), false).closed
    ensures !Interchangeable(a, [x], [], false)
  {
    PageInFront(a, [x], false);
    TakenOne(x);
    CommentAtTopChanges(Taken(a), Classify(Trimmed(x)));
    assert a + [] == a && Taken(a) + [] == Taken(a);
    ToldAtEnd(a, [x], [], false);
  }

  /** It changes nothing, whatever comes behind it, only there. */
  lemma CommentLinesExactly(a: seq<string>, x: string, noComments: bool)
    requires OneLiners(a + [x]) && IsCommentLine(x)
    ensures Interchangeable(a, [x], [], noComments) <==> noComments || !ReadText(Unlines(a), noComments).closed
  {
    PageInFront(a, [x], noComments);
    if noComments || !ReadText(Unlines(a), noComments).closed {
      CommentLinesIgnored(a, x, noComments);
    } else {
      CommentLineChanges(a, x);
    }
  }

  // ----- layout around the colon -----

  lemma CutAtFirst(a: string, c: char, b: string)
    requires c !in a
    ensures Cut(a + [c] + b, c) == Split(a, b)
  {
    var x := a + [c] + b;
    IndexOfUnique(x, c, |a|);
    assert x[..|a|] == a && x[|a| + 1..] == b;
  }

  lemma TrimmedMiddle(p: string, l: string, r: string, q: string)
    requires Blank(p) && Blank(q) && (l == "" || !IsSpace(l[0])) && (r == "" || !IsSpace(r[|r| - 1]))
    ensures Trimmed(p + (l + ":" + r) + q) == l + ":" + r
  {
    var m := l + ":" + r;
    assert m[0] == if l == "" then ':' else l[0];
    assert m[|m| - 1] == if r == "" then ':' else r[|r| - 1];
    TrimmedUnique(p, m, q);
  }

  lemma TrimmedAround(k: string, v: string)
    ensures Trimmed(k + ":" + v) == TrimLeft(k) + ":" + TrimRight(v)
  {
    var p := TrimLeftParts(k);
    var q := RightPart(v);
    TrimmedMiddle(p, TrimLeft(k), TrimRight(v), q);
    RegroupMiddle(p, TrimLeft(k), TrimRight(v), q);
  }

  lemma RegroupMiddle(p: string, l: string, r: string, q: string)
    ensures p + l + ":" + (r + q) == p + (l + ":" + r) + q
  {}

  lemma TrimLeftParts(s: string) returns (p: string)
    ensures Blank(p) && s == p + TrimLeft(s) && (TrimLeft(s) == "" || !IsSpace(TrimLeft(s)[0]))
  {
    p := s[..LeadingBlanks(s)];
  }

  lemma RightPart(s: string) returns (q: string)
    ensures Blank(q) && s == TrimRight(s) + q && (TrimRight(s) == "" || !IsSpace(TrimRight(s)[|TrimRight(s)| - 1]))
  {
    q := s[|TrimRight(s)|..];
    TrimRightParts(s);
  }

  lemma TrimmedSides(s: string)
    ensures Trimmed(TrimLeft(s)) == Trimmed(s) && Trimmed(TrimRight(s)) == Trimmed(s)
  {
    var p := TrimLeftParts(s);
    TrimmedPadded(p, TrimLeft(s), "");
    assert p + TrimLeft(s) + "" == s;
    var q := RightPart(s);
    TrimmedPaddedRight(TrimRight(s), q);
  }

  /** A definition as the reader takes it. */
  lemma DefinitionTaken(k: string, v: string)
    requires ':' !in k
    ensures var x := Trimmed(k + ":" + v);
      && Classify(x) == Line(x, Trimmed(k), Trimmed(v)) && x == TrimLeft(k) + ":" + TrimRight(v) && ':' in x
  {
    var x := Trimmed(k + ":" + v);
    TrimmedAround(k, v);
    TrimIdempotent(k + ":" + v);
    CutAtFirst(TrimLeft(k), ':', TrimRight(v));
    TrimmedSides(k);
    TrimmedSides(v);
  }

  lemma FrontOfPadded(k: string, p: string)
    requires Blank(p)
    ensures TrimLeft(k) != "" ==> TrimLeft(k + p) == TrimLeft(k) + p
    ensures TrimLeft(k) == "" ==> TrimLeft(k + p) == ""
  {
    var w := TrimLeftParts(k);
    if TrimLeft(k) != "" {
      Assoc(w, TrimLeft(k), p);
      TrimLeftUnique(w, TrimLeft(k) + p);
    } else {
      assert k + p == k + p + "";
      TrimLeftUnique(k + p, "");
    }
  }

  /** Two spellings of the same definition, as the reader takes them. */
  predicate Spelling(x: string, y: string) {
    Trimmed(x) != "" && Trimmed(y) != "" && Alike(Classify(Trimmed(x)), Classify(Trimmed(y)))
  }

  lemma TakenAlike(k: string, v: string, k': string, v': string)
    requires ':' !in k && ':' !in k' && Trimmed(k) == Trimmed(k') && Trimmed(v) == Trimmed(v')
    requires TrimLeft(k) == "" <==> TrimLeft(k') == ""
    requires TrimLeft(k) != "" ==> TrimLeft(k)[0] == TrimLeft(k')[0]
    ensures Spelling(k + ":" + v, k' + ":" + v')
  {
    LineTaken(k, v);
    LineTaken(k', v');
  }

  lemma LineTaken(k: string, v: string)
    requires ':' !in k
    ensures var l := Classify(Trimmed(k + ":" + v));
      && l.text != "" && l.text != "}" && l.key == Trimmed(k) && l.term == Trimmed(v)
      && (IsComment(l) <==> TrimLeft(k) != "" && TrimLeft(k)[0] == '#')
  {
    DefinitionTaken(k, v);
    FirstOfDefinition(TrimLeft(k), TrimRight(v));
  }

  lemma FirstOfDefinition(l: string, r: string)
    ensures (l + ":" + r)[0] == if l == "" then ':' else l[0]
    ensures l + ":" + r != "}"
  {
    assert (l + ":" + r)[|l|] == ':';
  }

  /** Padding around the colon is another spelling. */
  lemma PaddedAlike(k: string, p: string, q: string, v: string)
    requires ':' !in k && Blank(p) && Blank(q)
    ensures Spelling(k + ":" + v, k + p + ":" + (q + v))
  {
    TrimmedPaddedRight(k, p);
    TrimmedPadded(q, v, "");
    assert q + v + "" == q + v;
    FrontOfPadded(k, p);
    assert ':' !in k + p;
    TakenAlike(k, v, k + p, q + v);
  }

  lemma ClosingTaken()
    ensures Taken(["}"]) == [Classify("}")]
  {
    TrimmedOfTrimmed("}");
    TakenOne("}");
  }

  /** A closing line behind the two shows the difference. */
  lemma SpellingsDiffer(a: seq<string>, x: string, y: string, noComments: bool)
    requires OneLiners(a + [x]) && OneLiners(a + [y]) && Spelling(x, y)
    requires Trimmed(y) != Trimmed(x) && !IsCommentLine(x) && !Read(Taken(a), noComments).closed
    ensures !Interchangeable(a, [x], [y], noComments)
  {
    TakenOne(x);
    TakenOne(y);
    ClosingTaken();
    BlockTellsApart(Taken(a), Classify(Trimmed(x)), Classify(Trimmed(y)), Classify("}"), noComments);
    OneMore(a + [x], "}");
    OneMore(a + [y], "}");
    ToldApart(a, [x], [y], ["}"], noComments);
  }

  lemma OneMore(xs: seq<string>, z: string)
    requires OneLiners(xs) && '\n' !in z
    ensures OneLiners(xs + [z])
  {}

  lemma SpellingsReadSame(a: seq<string>, x: string, y: string, noComments: bool)
    requires Spelling(x, y)
    requires Read(Taken(a), noComments).closed || IsCommentLine(x) || Trimmed(x) == Trimmed(y)
    ensures Interchangeable(a, [x], [y], noComments)
  {
    TakenOne(x);
    TakenOne(y);
    forall b, s, t | IsFileOf(s, a + [x] + b) && IsFileOf(t, a + [y] + b)
      ensures ReadText(s, noComments) == ReadText(t, noComments)
    {
      FileAround(s, a, [x], b, noComments);
      FileAround(t, a, [y], b, noComments);
      AlikeReadsSame(Taken(a), Classify(Trimmed(x)), Classify(Trimmed(y)), Taken(b), noComments);
    }
  }

  /** Two spellings are interchangeable if and only if the reader is outside all blocks, or they are
      comments, or they differ at their ends only. */
  lemma SpellingsExactly(a: seq<string>, x: string, y: string, noComments: bool)
    requires OneLiners(a + [x]) && OneLiners(a + [y]) && Spelling(x, y)
    ensures Interchangeable(a, [x], [y], noComments)
       <==> ReadText(Unlines(a), noComments).closed || IsCommentLine(x) || Trimmed(x) == Trimmed(y)
  {
    PageInFront(a, [x], noComments);
    if Read(Taken(a), noComments).closed || IsCommentLine(x) || Trimmed(x) == Trimmed(y) {
      SpellingsReadSame(a, x, y, noComments);
    } else {
      SpellingsDiffer(a, x, y, noComments);
    }
  }

  /** So it is with whitespace around the first colon of a line. */
  lemma ColonPaddingExactly(a: seq<string>, k: string, p: string, q: string, v: string, noComments: bool)
    requires ':' !in k && Blank(p) && Blank(q)
    requires OneLiners(a + [k + ":" + v]) && OneLiners(a + [k + p + ":" + (q + v)])
    ensures var x, y := k + ":" + v, k + p + ":" + (q + v);
      Interchangeable(a, [x], [y], noComments)
      <==> ReadText(Unlines(a), noComments).closed || IsCommentLine(x) || Trimmed(x) == Trimmed(y)
  {
    PaddedAlike(k, p, q, v);
    SpellingsExactly(a, k + ":" + v, k + p + ":" + (q + v), noComments);
  }
}

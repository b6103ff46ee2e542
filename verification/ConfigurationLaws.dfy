/** What the reading of lines promises: it can be cut into pieces, the last definition of a key wins,
    its cursor stays in the list exactly when the headers close, every line is read once, and which
    comments are ignored. */
module ConfigurationLaws {
  import opened CStrings
  import opened Configuration

  // ----- pieces -----

  lemma FirstCloseConcat(a: seq<Line>, b: seq<Line>)
    ensures FirstClose(a + b) == if FirstClose(a) < |a| then FirstClose(a) else |a| + FirstClose(b)
  {
    var k := if FirstClose(a) < |a| then FirstClose(a) else |a| + FirstClose(b);
    forall i | 0 <= i < k ensures (a + b)[i].text != "}" {
      if i >= |a| { assert (a + b)[i] == b[i - |a|]; }
    }
    FirstCloseUnique(a + b, k);
  }

  /** A first definition that is complete is not changed by what comes behind it. */
  lemma FirstOfConcat(a: seq<Line>, b: seq<Line>, noComments: bool)
    requires a != [] && !Unclosed(a, noComments)
    ensures !Unclosed(a + b, noComments) && Width(a + b, noComments) == Width(a, noComments)
    ensures First(a + b, noComments) == First(a, noComments)
    ensures (a + b)[Width(a, noComments)..] == a[Width(a, noComments)..] + b
  {
    assert (a + b)[1..] == a[1..] + b;
    FirstCloseConcat(a[1..], b);
    var k := FirstClose(a[1..]);
    if k < |a| - 1 { assert (a[1..] + b)[..k] == a[1..][..k]; }
    assert (a + b)[Width(a, noComments)..] == a[Width(a, noComments)..] + b;
  }

  /** Reading in pieces: behind a piece with all its blocks closed the reading starts afresh. */
  lemma {:induction false} ReadConcat(a: seq<Line>, b: seq<Line>, noComments: bool)
    requires Read(a, noComments).closed
    ensures Read(a + b, noComments)
         == Reading(Read(a, noComments).entries + Read(b, noComments).entries, Read(b, noComments).closed)
    decreases |a|
  {
    if a == [] {
      assert a + b == b;
      assert [] + Read(b, noComments).entries == Read(b, noComments).entries;
    } else {
      var rest := a[Width(a, noComments)..];
      ReadStep(a, noComments);
      FirstOfConcat(a, b, noComments);
      ReadStep(a + b, noComments);
      ReadConcat(rest, b, noComments);
      Assoc(First(a, noComments), Read(rest, noComments).entries, Read(b, noComments).entries);
    }
  }

  lemma {:induction false} StoreConcat(table: Table, a: seq<Entry>, b: seq<Entry>)
    ensures Store(table, a + b) == Store(Store(table, a), b)
    decreases |a|
  {
    if a == [] {
      assert a + b == b;
    } else {
      assert (a + b)[1..] == a[1..] + b;
      StoreConcat(table[a[0].key := ValueOf(a[0])], a[1..], b);
    }
  }

  /** A key without definitions keeps its old value, or stays without one. */
  lemma {:induction false} OtherKeysStay(table: Table, es: seq<Entry>, key: string)
    requires forall e | e in es :: e.key != key
    ensures key in Store(table, es) <==> key in table
    ensures key in table ==> Store(table, es)[key] == table[key]
    decreases |es|
  {
    if es != [] {
      assert es[0] in es && forall e | e in es[1..] :: e in es;
      OtherKeysStay(table[es[0].key := ValueOf(es[0])], es[1..], key);
    }
  }

  /** Of several definitions of a key the last one wins. */
  lemma LastDefinitionWins(table: Table, es: seq<Entry>, i: nat)
    requires i < |es| && forall e | e in es[i + 1..] :: e.key != es[i].key
    ensures es[i].key in Store(table, es) && Store(table, es)[es[i].key] == ValueOf(es[i])
  {
    assert es == es[..i] + es[i..];
    StoreConcat(table, es[..i], es[i..]);
    var t := Store(table, es[..i]);
    assert es[i..][1..] == es[i + 1..];
    OtherKeysStay(t[es[i].key := ValueOf(es[i])], es[i + 1..], es[i].key);
  }

  // ----- the cursor -----

  /** Taking the lines one by one: whether the reader is inside a block behind them, when it was
      or was not in front of them. */
  predicate Inside(lines: seq<Line>, inBlock: bool, noComments: bool) {
    if lines == [] then inBlock
    else
      var x := lines[0];
      Inside(lines[1..], if inBlock then x.text != "}" else IsHeader(x, noComments), noComments)
  }

  lemma {:induction false} InsideConcat(a: seq<Line>, b: seq<Line>, inBlock: bool, noComments: bool)
    ensures Inside(a + b, inBlock, noComments) == Inside(b, Inside(a, inBlock, noComments), noComments)
    decreases |a|
  {
    if a == [] {
      assert a + b == b;
    } else {
      assert (a + b)[1..] == a[1..] + b;
      InsideConcat(a[1..], b, if inBlock then a[0].text != "}" else IsHeader(a[0], noComments), noComments);
    }
  }

  /** A block is left at its first closing line. */
  lemma {:induction false} InsideLeaves(lines: seq<Line>, noComments: bool)
    ensures var k := FirstClose(lines);
      Inside(lines, true, noComments) == (k < |lines| ==> Inside(lines[k + 1..], false, noComments))
  {
    var k := FirstClose(lines);
    if k > 0 {
      InsideLeaves(lines[1..], noComments);
      assert k < |lines| ==> lines[1..][k..] == lines[k + 1..];
    }
  }

  lemma InsideFirst(lines: seq<Line>, noComments: bool)
    requires lines != []
    ensures Unclosed(lines, noComments) ==> Inside(lines, false, noComments)
    ensures !Unclosed(lines, noComments) ==>
      Inside(lines, false, noComments) == Inside(lines[Width(lines, noComments)..], false, noComments)
  {
    var rest := lines[1..];
    if IsHeader(lines[0], noComments) {
      InsideLeaves(rest, noComments);
      var k := FirstClose(rest);
      if k < |rest| { assert rest[k + 1..] == lines[k + 2..]; }
    }
  }

  /** The blocks of a file are closed exactly if the reader is not inside one at the end. */
  lemma {:induction false} ClosedIsOutside(lines: seq<Line>, noComments: bool)
    ensures Read(lines, noComments).closed <==> !Inside(lines, false, noComments)
    decreases |lines|
  {
    if lines != [] {
      InsideFirst(lines, noComments);
      if !Unclosed(lines, noComments) {
        ReadStep(lines, noComments);
        ClosedIsOutside(lines[Width(lines, noComments)..], noComments);
      }
    }
  }

  /** The outer loop comes to line `i` when the reader is outside all blocks in front of it. */
  predicate AtTop(lines: seq<Line>, i: nat, noComments: bool)
    requires i <= |lines|
  {
    !Inside(lines[..i], false, noComments)
  }

  /** Reading gets stuck on line `i`: a header that the outer loop reaches and nothing closes. */
  ghost predicate StuckAt(lines: seq<Line>, i: nat, noComments: bool) {
    && i < |lines| && AtTop(lines, i, noComments) && IsHeader(lines[i], noComments)
    && forall j | i < j < |lines| :: lines[j].text != "}"
  }

  /** Where reading gets stuck. */
  lemma {:induction false} StuckHeader(lines: seq<Line>, noComments: bool) returns (i: nat)
    requires Inside(lines, false, noComments)
    ensures StuckAt(lines, i, noComments)
    decreases |lines|
  {
    var n := |lines| - 1;
    var front, x := lines[..n], lines[n];
    assert lines == front + [x];
    InsideConcat(front, [x], false, noComments);
    if Inside(front, false, noComments) {
      i := StuckHeader(front, noComments);
      assert front[..i] == lines[..i];
    } else {
      i := n;
    }
  }

  lemma StuckStays(lines: seq<Line>, i: nat, noComments: bool)
    requires StuckAt(lines, i, noComments)
    ensures Inside(lines, false, noComments)
  {
    var rest := lines[i + 1..];
    assert lines == lines[..i] + ([lines[i]] + rest) && ([lines[i]] + rest)[1..] == rest;
    InsideConcat(lines[..i], [lines[i]] + rest, false, noComments);
    FirstCloseUnique(rest, |rest|);
    InsideLeaves(rest, noComments);
  }

  ghost predicate HeadersClose(lines: seq<Line>, noComments: bool) {
    forall i: nat | i < |lines| && AtTop(lines, i, noComments) && IsHeader(lines[i], noComments) ::
      exists j :: i < j < |lines| && lines[j].text == "}"
  }

  /** The cursor of the two loops stays inside the list if and only if every block header that
      the outer loop reaches has a closing line somewhere behind it. */
  lemma CursorStaysInside(lines: seq<Line>, noComments: bool)
    ensures Read(lines, noComments).closed <==> HeadersClose(lines, noComments)
  {
    ClosedIsOutside(lines, noComments);
    if Inside(lines, false, noComments) {
      var i := StuckHeader(lines, noComments);
    } else {
      forall i: nat | i < |lines| && AtTop(lines, i, noComments) && IsHeader(lines[i], noComments)
        ensures exists j :: i < j < |lines| && lines[j].text == "}"
      {
        if !exists j :: i < j < |lines| && lines[j].text == "}" { StuckStays(lines, i, noComments); }
      }
    }
  }

  // ----- every line is read once -----

  /** How definitions are written down. */
  function PrintedLines(es: seq<Entry>): seq<string> {
    if es == [] then [] else PrintedEntry(es[0]) + PrintedLines(es[1..])
  }

  function PrintedEntry(e: Entry): seq<string> {
    match e
    case Scalar(k, term) => [k + ":" + term]
    case Block(k, lines) => [k + ":{"] + lines + ["}"]
  }

  /** The lines of a file taken one by one: a definition is written down as its key and term,
      a line inside a block as it stands, up to the closing line; comments are left out where
      they are skipped. */
  function OnePass(lines: seq<Line>, inBlock: bool, noComments: bool): seq<string> {
    if lines == [] then []
    else
      var x, rest := lines[0], lines[1..];
      if inBlock then
        (if IsComment(x) then [] else [x.text]) + OnePass(rest, x.text != "}", noComments)
      else if Skipped(x, noComments) then OnePass(rest, false, noComments)
      else [x.key + ":" + x.term] + OnePass(rest, x.term == "{", noComments)
  }

  lemma {:induction false} OnePassInBlock(lines: seq<Line>, noComments: bool)
    requires FirstClose(lines) < |lines|
    ensures var k := FirstClose(lines);
      OnePass(lines, true, noComments) == Content(lines[..k]) + ["}"] + OnePass(lines[k + 1..], false, noComments)
  {
    var k := FirstClose(lines);
    if k > 0 {
      OnePassInBlock(lines[1..], noComments);
      assert lines[..k][1..] == lines[1..][..k - 1] && lines[1..][k..] == lines[k + 1..];
      var head := if IsComment(lines[0]) then [] else [lines[0].text];
      Assoc(head, Content(lines[1..][..k - 1]) + ["}"], OnePass(lines[k + 1..], false, noComments));
      Assoc(head, Content(lines[1..][..k - 1]), ["}"]);
    }
  }

  lemma PrintedOne(e: Entry)
    ensures PrintedLines([e]) == PrintedEntry(e)
  {
    assert [e][1..] == [] && PrintedEntry(e) + [] == PrintedEntry(e);
  }

  lemma AssocFour<T>(a: seq<T>, b: seq<T>, c: seq<T>, d: seq<T>)
    ensures a + (b + c + d) == (a + b + c) + d
  {}

  lemma OnePassBlock(h: Line, rest: seq<Line>, inner: seq<string>, tail: seq<Line>, noComments: bool)
    requires IsHeader(h, noComments) && FirstClose(rest) < |rest|
    requires inner == Content(rest[..FirstClose(rest)]) && tail == rest[FirstClose(rest) + 1..]
    ensures OnePass([h] + rest, false, noComments)
         == PrintedEntry(Block(h.key, inner)) + OnePass(tail, false, noComments)
  {
    OnePassInBlock(rest, noComments);
    assert ([h] + rest)[1..] == rest;
    assert h.key + ":" + "{" == h.key + ":{";
    AssocFour([h.key + ":{"], inner, ["}"], OnePass(tail, false, noComments));
  }

  lemma HeaderFirst(lines: seq<Line>, h: Line, rest: seq<Line>, k: nat, noComments: bool)
    requires lines != [] && h == lines[0] && rest == lines[1..] && IsHeader(h, noComments)
    requires k == FirstClose(rest) < |rest|
    ensures !Unclosed(lines, noComments) && First(lines, noComments) == [Block(h.key, Content(rest[..k]))]
    ensures lines[Width(lines, noComments)..] == rest[k + 1..]
  {
    assert lines[k + 2..] == rest[k + 1..];
  }

  lemma OnePassHeader(lines: seq<Line>, noComments: bool)
    requires lines != [] && !Unclosed(lines, noComments) && IsHeader(lines[0], noComments)
    ensures OnePass(lines, false, noComments)
         == PrintedEntry(First(lines, noComments)[0]) + OnePass(lines[Width(lines, noComments)..], false, noComments)
  {
    var h, rest := lines[0], lines[1..];
    var k := FirstClose(rest);
    HeaderFirst(lines, h, rest, k, noComments);
    assert lines == [h] + rest;
    OnePassBlock(h, rest, Content(rest[..k]), rest[k + 1..], noComments);
  }

  lemma OnePassSkips(lines: seq<Line>, noComments: bool)
    requires lines != [] && Skipped(lines[0], noComments)
    ensures OnePass(lines, false, noComments) == [] + OnePass(lines[1..], false, noComments)
  {
    assert [] + OnePass(lines[1..], false, noComments) == OnePass(lines[1..], false, noComments);
  }

  lemma OnePassFirst(lines: seq<Line>, noComments: bool)
    requires lines != [] && !Unclosed(lines, noComments)
    ensures OnePass(lines, false, noComments)
         == PrintedLines(First(lines, noComments)) + OnePass(lines[Width(lines, noComments)..], false, noComments)
  {
    if Skipped(lines[0], noComments) {
      OnePassSkips(lines, noComments);
    } else {
      PrintedOne(First(lines, noComments)[0]);
      if IsHeader(lines[0], noComments) { OnePassHeader(lines, noComments); }
    }
  }

  lemma PrintedConcat(a: seq<Entry>, b: seq<Entry>)
    requires |a| <= 1
    ensures PrintedLines(a + b) == PrintedLines(a) + PrintedLines(b)
  {
    if a == [] {
      assert a + b == b;
    } else {
      assert (a + b)[1..] == b && PrintedLines(a[1..]) == [];
    }
  }

  /** No line is lost and none is read twice: the nested loops with their shared cursor read a
      closed file exactly as one pass over its lines would. */
  lemma {:induction false} LinesAccounted(lines: seq<Line>, noComments: bool)
    requires Read(lines, noComments).closed
    ensures PrintedLines(Read(lines, noComments).entries) == OnePass(lines, false, noComments)
    decreases |lines|
  {
    if lines != [] {
      var w := Width(lines, noComments);
      ReadStep(lines, noComments);
      LinesAccounted(lines[w..], noComments);
      OnePassFirst(lines, noComments);
      PrintedConcat(First(lines, noComments), Read(lines[w..], noComments).entries);
    }
  }

  // ----- comments -----

  ghost predicate NoClose(lines: seq<Line>) {
    forall i | 0 <= i < |lines| :: lines[i].text != "}"
  }

  /** A block is read as its lines without the comments. */
  lemma ReadClosedBlock(h: Line, inner: seq<Line>, z: Line, rest: seq<Line>, noComments: bool)
    requires IsHeader(h, noComments) && NoClose(inner) && z.text == "}"
    ensures Read([h] + (inner + ([z] + rest)), noComments)
         == Reading([Block(h.key, Content(inner))] + Read(rest, noComments).entries, Read(rest, noComments).closed)
  {
    var lines := [h] + (inner + ([z] + rest));
    assert lines[1..] == inner + ([z] + rest);
    FirstCloseUnique(inner + ([z] + rest), |inner|);
    assert (inner + ([z] + rest))[..|inner|] == inner;
    assert lines[|inner| + 2..] == rest;
    ReadStep(lines, noComments);
  }

  lemma ReadOpenBlock(h: Line, inner: seq<Line>, noComments: bool)
    requires IsHeader(h, noComments) && NoClose(inner)
    ensures Read([h] + inner, noComments) == Reading([], false)
  {
    assert ([h] + inner)[1..] == inner;
    FirstCloseUnique(inner, |inner|);
  }

  lemma ContentAround(t: seq<Line>, c: Line, u: seq<Line>)
    requires IsComment(c)
    ensures Content(t + [c] + u) == Content(t + u)
  {
    ContentConcat(t + [c], u);
    ContentConcat(t, [c]);
    ContentConcat(t, u);
    assert Content([c]) == [] && Content(t) + [] == Content(t);
  }

  lemma NoCloseAround(t: seq<Line>, c: Line, u: seq<Line>)
    requires NoClose(t) && NoClose(u) && IsComment(c)
    ensures NoClose(t + [c] + u) && NoClose(t + u)
  {}

  lemma CommentBetween(h: Line, t: seq<Line>, c: Line, u: seq<Line>, w: seq<Line>, noComments: bool)
    requires IsHeader(h, noComments) && NoClose(t) && NoClose(u) && IsComment(c)
    requires w == [] || w[0].text == "}"
    ensures Read([h] + (t + [c] + u + w), noComments) == Read([h] + (t + u + w), noComments)
  {
    NoCloseAround(t, c, u);
    if w == [] {
      assert t + [c] + u + w == t + [c] + u && t + u + w == t + u;
      ReadOpenBlock(h, t + [c] + u, noComments);
      ReadOpenBlock(h, t + u, noComments);
    } else {
      var z, rest := w[0], w[1..];
      assert w == [z] + rest;
      ContentAround(t, c, u);
      ReadClosedBlock(h, t + [c] + u, z, rest, noComments);
      ReadClosedBlock(h, t + u, z, rest, noComments);
    }
  }

  lemma CommentInBlock(a: seq<Line>, c: Line, b: seq<Line>, noComments: bool)
    requires a != [] && Unclosed(a, noComments) && IsComment(c)
    ensures Read(a + [c] + b, noComments) == Read(a + b, noComments)
  {
    var k := FirstClose(b);
    Shuffle(a, c, b, k);
    CommentBetween(a[0], a[1..], c, b[..k], b[k..], noComments);
  }

  lemma Shuffle<T>(a: seq<T>, c: T, b: seq<T>, k: nat)
    requires a != [] && k <= |b|
    ensures a + [c] + b == [a[0]] + (a[1..] + [c] + b[..k] + b[k..])
    ensures a + b == [a[0]] + (a[1..] + b[..k] + b[k..])
  {}

  /** A comment line changes nothing wherever comments are skipped: anywhere when the reader
      skips comments, inside a block in any case. */
  lemma {:induction false} CommentIgnored(a: seq<Line>, c: Line, b: seq<Line>, noComments: bool)
    requires IsComment(c) && (noComments || !Read(a, noComments).closed)
    ensures Read(a + [c] + b, noComments) == Read(a + b, noComments)
    decreases |a|
  {
    if a == [] {
      var x := [c] + b;
      assert a + [c] + b == x && a + b == b;
      assert x[1..] == b;
      assert [] + Read(b, noComments).entries == Read(b, noComments).entries;
    } else if Unclosed(a, noComments) {
      CommentInBlock(a, c, b, noComments);
    } else {
      var rest := a[Width(a, noComments)..];
      ReadStep(a, noComments);
      CommentIgnored(rest, c, b, noComments);
      Assoc(a, [c], b);
      Assoc(rest, [c], b);
      FirstOfConcat(a, [c] + b, noComments);
      FirstOfConcat(a, b, noComments);
      ReadStep(a + ([c] + b), noComments);
      ReadStep(a + b, noComments);
    }
  }

  /** Where comments are not skipped, a comment line at top level is read like any other: it
      starts a block, or it is a definition of one line. */
  lemma CommentAtTopIsRead(a: seq<Line>, c: Line, b: seq<Line>)
    requires IsComment(c) && Read(a, false).closed
    ensures var r := Read([c] + b, false);
      Read(a + [c] + b, false) == Reading(Read(a, false).entries + r.entries, r.closed)
    ensures c.term != "{" ==>
      Read([c] + b, false) == Reading([Scalar(c.key, c.term)] + Read(b, false).entries, Read(b, false).closed)
  {
    Assoc(a, [c], b);
    ReadConcat(a, [c] + b, false);
    assert ([c] + b)[1..] == b;
    if c.term != "{" { ReadStep([c] + b, false); }
  }

  lemma CommentAtTopChanges(a: seq<Line>, c: Line)
    requires IsComment(c) && Read(a, false).closed
    ensures Read(a + [c], false) != Read(a, false)
  {
    CommentAtTopIsRead(a, c, []);
    assert a + [c] + [] == a + [c] && [c] + [] == [c];
    if c.term == "{" { assert Unclosed([c], false); }
  }

  /** A comment line changes nothing, whatever comes behind it, if and only if the reader skips
      comments or is inside a block. */
  lemma CommentIgnoredExactly(a: seq<Line>, c: Line, noComments: bool)
    requires IsComment(c)
    ensures (forall b: seq<Line> :: Read(a + [c] + b, noComments) == Read(a + b, noComments))
       <==> noComments || !Read(a, noComments).closed
  {
    if noComments || !Read(a, noComments).closed {
      forall b: seq<Line> ensures Read(a + [c] + b, noComments) == Read(a + b, noComments) {
        CommentIgnored(a, c, b, noComments);
      }
    } else {
      CommentAtTopChanges(a, c);
      assert a + [c] + [] == a + [c] && a + [] == a;
      assert Read(a + [c] + [], noComments) != Read(a + [], noComments);
    }
  }

  // ----- lines that say the same -----

  /** Two spellings of a definition: the same key and term, both comments or neither, and none
      closes a block. */
  predicate Alike(c: Line, d: Line) {
    && c.key == d.key && c.term == d.term && (IsComment(c) <==> IsComment(d))
    && c.text != "}" && d.text != "}"
  }

  lemma AlikeFirst(x: seq<Line>, y: seq<Line>, noComments: bool)
    requires x != [] && y != [] && x[1..] == y[1..] && Alike(x[0], y[0])
    ensures Unclosed(x, noComments) <==> Unclosed(y, noComments)
    ensures First(x, noComments) == First(y, noComments)
    ensures !Unclosed(x, noComments) ==> Width(x, noComments) == Width(y, noComments)
  {}

  lemma AlikeInFront(c: Line, d: Line, b: seq<Line>, noComments: bool)
    requires Alike(c, d)
    ensures Read([c] + b, noComments) == Read([d] + b, noComments)
  {
    var x, y := [c] + b, [d] + b;
    assert x[1..] == b && y[1..] == b;
    AlikeFirst(x, y, noComments);
    if !Unclosed(x, noComments) { AlikeRest(x, y, Width(x, noComments), noComments); }
  }

  lemma AlikeRest(x: seq<Line>, y: seq<Line>, w: nat, noComments: bool)
    requires x != [] && y != [] && x[1..] == y[1..] && !Unclosed(x, noComments) && !Unclosed(y, noComments)
    requires Width(x, noComments) == Width(y, noComments) == w && First(x, noComments) == First(y, noComments)
    ensures Read(x, noComments) == Read(y, noComments)
  {
    assert x[w..] == x[1..][w - 1..] && y[w..] == y[1..][w - 1..];
    ReadStep(x, noComments);
    ReadStep(y, noComments);
  }

  lemma AlikeReadsSame(a: seq<Line>, c: Line, d: Line, b: seq<Line>, noComments: bool)
    requires Alike(c, d) && (c.text == d.text || IsComment(c) || Read(a, noComments).closed)
    ensures Read(a + [c] + b, noComments) == Read(a + [d] + b, noComments)
  {
    if Read(a, noComments).closed {
      Assoc(a, [c], b);
      Assoc(a, [d], b);
      ReadConcat(a, [c] + b, noComments);
      ReadConcat(a, [d] + b, noComments);
      AlikeInFront(c, d, b, noComments);
    } else if IsComment(c) {
      CommentIgnored(a, c, b, noComments);
      CommentIgnored(a, d, b, noComments);
    }
  }

  lemma InnerLines(a: seq<Line>, c: Line, noComments: bool)
    requires a != [] && Unclosed(a, noComments) && !IsComment(c) && c.text != "}"
    ensures NoClose(a[1..] + [c]) && Content(a[1..] + [c]) == Content(a[1..]) + [c.text]
  {
    ContentConcat(a[1..], [c]);
    assert [c][1..] == [];
  }

  /** The last line of a block is in it as it stands. */
  lemma BlockEndsWith(a: seq<Line>, c: Line, z: Line, noComments: bool)
    requires a != [] && Unclosed(a, noComments) && !IsComment(c) && c.text != "}" && z.text == "}"
    ensures Read(a + [c] + [z], noComments) == Reading([Block(a[0].key, Content(a[1..]) + [c.text])], true)
  {
    var h, inner := a[0], a[1..] + [c];
    InnerLines(a, c, noComments);
    assert a + [c] + [z] == [h] + (inner + ([z] + []));
    ReadClosedBlock(h, inner, z, [], noComments);
  }

  lemma PrefixCancels(a: seq<Entry>, b: seq<Entry>, c: seq<Entry>)
    requires a + b == a + c
    ensures b == c
  {
    assert b == (a + b)[|a|..];
    assert c == (a + c)[|a|..];
  }

  lemma {:induction false} BlockTellsApart(a: seq<Line>, c: Line, d: Line, z: Line, noComments: bool)
    requires !Read(a, noComments).closed && z.text == "}"
    requires Alike(c, d) && !IsComment(c) && c.text != d.text
    ensures Read(a + [c] + [z], noComments) != Read(a + [d] + [z], noComments)
    decreases |a|
  {
    if Unclosed(a, noComments) {
      BlockEndsWith(a, c, z, noComments);
      BlockEndsWith(a, d, z, noComments);
      assert (Content(a[1..]) + [c.text])[|Content(a[1..])|] == c.text;
      assert (Content(a[1..]) + [d.text])[|Content(a[1..])|] == d.text;
    } else {
      var rest := a[Width(a, noComments)..];
      ReadStep(a, noComments);
      BlockTellsApart(rest, c, d, z, noComments);
      ReadBehind(a, c, z, noComments);
      ReadBehind(a, d, z, noComments);
      if Read(a + [c] + [z], noComments) == Read(a + [d] + [z], noComments) {
        PrefixCancels(First(a, noComments), Read(rest + [c] + [z], noComments).entries,
                      Read(rest + [d] + [z], noComments).entries);
      }
    }
  }

  lemma ReadBehind(a: seq<Line>, c: Line, z: Line, noComments: bool)
    requires a != [] && !Unclosed(a, noComments)
    ensures var r := Read(a[Width(a, noComments)..] + [c] + [z], noComments);
      Read(a + [c] + [z], noComments) == Reading(First(a, noComments) + r.entries, r.closed)
  {
    Assoc(a, [c], [z]);
    Assoc(a[Width(a, noComments)..], [c], [z]);
    FirstOfConcat(a, [c] + [z], noComments);
    ReadStep(a + ([c] + [z]), noComments);
  }
}

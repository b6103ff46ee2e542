/** The configuration file: one loop over its lines, and inside it a second loop that moves the
    same cursor through the lines of a block. */
module Configuration {
  import opened CStrings
  import opened Trimming
  import opened LineSplitting
  import opened ItemLists
  import opened ItemLaws

  /** A definition: `key: term` on one line, or a block of lines. */
  datatype Entry = Scalar(key: string, term: string) | Block(key: string, lines: seq<string>)

  /** A line of the file, with the two trimmed sides of its first colon. */
  datatype Line = Line(text: string, key: string, term: string)

  function Classify(x: string): Line {
    Line(x, Trimmed(SplitPair(x, ':').head), Trimmed(SplitPair(x, ':').rest))
  }

  function ClassifyAll(xs: seq<string>): seq<Line> {
    if xs == [] then [] else [Classify(xs[0])] + ClassifyAll(xs[1..])
  }

  /** A line without a colon is a key that is defined as the empty term. */
  lemma ClassifyColonless(x: string)
    requires IsTrimmed(x) && ':' !in x
    ensures Classify(x) == Line(x, x, "")
  {
    TrimmedOfTrimmed(x);
    TrimmedOfTrimmed("");
  }

  lemma {:induction false} ClassifyAt(xs: seq<string>)
    ensures |ClassifyAll(xs)| == |xs|
    ensures forall i | 0 <= i < |xs| :: ClassifyAll(xs)[i] == Classify(xs[i])
  {
    if xs != [] {
      ClassifyAt(xs[1..]);
      forall i | 0 <= i < |xs| ensures ClassifyAll(xs)[i] == Classify(xs[i]) {
        if i > 0 { assert ClassifyAll(xs)[i] == ClassifyAll(xs[1..])[i - 1]; }
      }
    }
  }

  ghost predicate ReadsAs(lines: seq<string>, ls: seq<Line>, i: nat) {
    i < |lines| && i < |ls| && ls[i] == Classify(lines[i]) && IsContentLine(lines[i])
  }

  /** `ls` are the lines as the loops read them. */
  ghost predicate ReadAs(lines: seq<string>, ls: seq<Line>) {
    |ls| == |lines| && forall i: nat | i < |lines| :: ReadsAs(lines, ls, i)
  }

  lemma ClassifyContent(lines: seq<string>)
    requires forall x | x in lines :: IsContentLine(x)
    ensures ReadAs(lines, ClassifyAll(lines))
  {
    ClassifyAt(lines);
    forall i: nat | i < |lines| ensures ReadsAs(lines, ClassifyAll(lines), i) {
      assert lines[i] in lines;
    }
  }

  lemma TextAt(lines: seq<string>, ls: seq<Line>, i: nat)
    requires ReadAs(lines, ls) && i < |lines|
    ensures ls[i].text == lines[i] != "" && IsContentLine(lines[i])
  {
    assert ReadsAs(lines, ls, i);
  }

  lemma SkippedAt(lines: seq<string>, ls: seq<Line>, i: nat, noComments: bool)
    requires ReadAs(lines, ls) && i < |lines|
    ensures lines[i] != "" && (Skipped(ls[i], noComments) <==> noComments && lines[i][0] == '#')
  {
    TextAt(lines, ls, i);
  }

  /** What a reading of lines found, and whether the last block was closed. When it was not,
      the cursor of the source ran past the end of the list. */
  datatype Reading = Reading(entries: seq<Entry>, closed: bool)

  predicate IsComment(line: Line) {
    line.text != "" && line.text[0] == '#'
  }

  predicate Skipped(line: Line, noComments: bool) {
    noComments && IsComment(line)
  }

  predicate IsHeader(line: Line, noComments: bool) {
    !Skipped(line, noComments) && line.term == "{"
  }

  /** Where the first closing line is, or how many lines there are. */
  function FirstClose(lines: seq<Line>): (k: nat)
    ensures k <= |lines| && (forall i | 0 <= i < k :: lines[i].text != "}")
    ensures k < |lines| ==> lines[k].text == "}"
  {
    if lines == [] || lines[0].text == "}" then 0 else FirstClose(lines[1..]) + 1
  }

  lemma FirstCloseUnique(lines: seq<Line>, k: nat)
    requires k <= |lines| && (forall i | 0 <= i < k :: lines[i].text != "}")
    requires k < |lines| ==> lines[k].text == "}"
    ensures FirstClose(lines) == k
  {}

  /** The lines of a block that are no comments. */
  function Content(lines: seq<Line>): seq<string> {
    if lines == [] then []
    else (if IsComment(lines[0]) then [] else [lines[0].text]) + Content(lines[1..])
  }

  /** A header at the start of the lines, and no closing line behind it. */
  predicate Unclosed(lines: seq<Line>, noComments: bool)
    requires lines != []
  {
    IsHeader(lines[0], noComments) && FirstClose(lines[1..]) == |lines| - 1
  }

  /** How many lines the first definition takes. */
  function Width(lines: seq<Line>, noComments: bool): (w: nat)
    requires lines != [] && !Unclosed(lines, noComments)
    ensures 1 <= w <= |lines|
  {
    if IsHeader(lines[0], noComments) then FirstClose(lines[1..]) + 2 else 1
  }

  /** The definition at the start of the lines; a skipped line is none. */
  function First(lines: seq<Line>, noComments: bool): seq<Entry>
    requires lines != []
  {
    var line := lines[0];
    if Skipped(line, noComments) then []
    else if line.term != "{" then [Scalar(line.key, line.term)]
    else [Block(line.key, Content(lines[1..][..FirstClose(lines[1..])]))]
  }

  /** What the lines of a file say, read as a list of definitions. */
  function Read(lines: seq<Line>, noComments: bool): Reading
    decreases |lines|
  {
    if lines == [] then Reading([], true)
    else if Unclosed(lines, noComments) then Reading([], false)
    else
      var r := Read(lines[Width(lines, noComments)..], noComments);
      Reading(First(lines, noComments) + r.entries, r.closed)
  }

  lemma ReadStep(lines: seq<Line>, noComments: bool)
    requires lines != [] && !Unclosed(lines, noComments)
    ensures var r := Read(lines[Width(lines, noComments)..], noComments);
      Read(lines, noComments) == Reading(First(lines, noComments) + r.entries, r.closed)
  {}

  function ReadText(text: string, noComments: bool): Reading {
    Read(ClassifyAll(ContentLines(text)), noComments)
  }

  /** The text that the map holds for a definition: the lines of a block are joined by `;`. */
  function ValueOf(e: Entry): string {
    match e
    case Scalar(_, term) => term
    case Block(_, lines) => Join(lines, ";")
  }

  type Table = map<string, string>

  /** Definitions entered one after the other; a later one for the same key wins. */
  function Store(table: Table, entries: seq<Entry>): Table
    decreases |entries|
  {
    if entries == [] then table
    else Store(table[entries[0].key := ValueOf(entries[0])], entries[1..])
  }

  // ----- the two loops -----

  lemma {:induction false} ContentConcat(a: seq<Line>, b: seq<Line>)
    ensures Content(a + b) == Content(a) + Content(b)
  {
    if a == [] {
      assert a + b == b;
    } else {
      assert (a + b)[1..] == a[1..] + b && (a + b)[0] == a[0];
      ContentConcat(a[1..], b);
      Assoc(if IsComment(a[0]) then [] else [a[0].text], Content(a[1..]), Content(b));
    }
  }

  /** What the inner loop has built after `p` lines of a block without meeting its end. */
  ghost predicate InBlock(rest: seq<Line>, p: nat, term: string, sep: string) {
    && p <= |rest| && (forall i | 0 <= i < p :: rest[i].text != "}")
    && term == Join(Content(rest[..p]), ";") && sep == if Content(rest[..p]) == [] then "" else ";"
  }

  lemma ContentSnoc(lines: seq<Line>, p: nat)
    requires p < |lines|
    ensures IsComment(lines[p]) ==> Content(lines[..p + 1]) == Content(lines[..p])
    ensures !IsComment(lines[p]) ==> Content(lines[..p + 1]) == Content(lines[..p]) + [lines[p].text]
  {
    var done, line := Content(lines[..p]), [lines[p]];
    assert lines[..p + 1] == lines[..p] + line;
    ContentConcat(lines[..p], line);
    assert Content(line[1..]) == [];
    assert done + [] == done;
  }

  lemma CommentInBlockStep(rest: seq<Line>, p: nat, term: string, sep: string)
    requires InBlock(rest, p, term, sep) && p < |rest| && IsComment(rest[p])
    ensures InBlock(rest, p + 1, term, sep)
  {
    ContentSnoc(rest, p);
  }

  lemma JoinStep(done: seq<string>, x: string, term: string, sep: string)
    requires term == Join(done, ";") && sep == if done == [] then "" else ";"
    ensures term + (sep + x) == Join(done + [x], ";")
  {
    JoinSnoc(done, x, ";");
    if done == [] { assert term + (sep + x) == x; } else { Assoc(term, sep, x); }
  }

  lemma LineInBlockStep(rest: seq<Line>, p: nat, term: string, sep: string)
    requires InBlock(rest, p, term, sep) && p < |rest| && !IsComment(rest[p]) && rest[p].text != "}"
    ensures InBlock(rest, p + 1, term + (sep + rest[p].text), ";")
  {
    var done, x := Content(rest[..p]), rest[p].text;
    ContentSnoc(rest, p);
    JoinStep(done, x, term, sep);
    assert done + [x] != [];
  }

  lemma InBlockEnds(rest: seq<Line>, p: nat, term: string, sep: string)
    requires InBlock(rest, p, term, sep) && (p < |rest| ==> rest[p].text == "}")
    ensures FirstClose(rest) == p && term == Join(Content(rest[..p]), ";")
  {
    FirstCloseUnique(rest, p);
  }

  /** The inner loop: moves the cursor from a header to the closing line of its block, or past
      the end of the list. `rest` are the lines behind the header. */
  method ReadBlock(lines: seq<string>, lit0: nat, ghost ls: seq<Line>, ghost rest: seq<Line>)
    returns (term: string, lit: nat, overrun: bool)
    requires lit0 < |lines| && ReadAs(lines, ls) && rest == ls[lit0 + 1..]
    ensures overrun <==> FirstClose(rest) == |rest|
    ensures lit == lit0 + 1 + FirstClose(rest)
    ensures !overrun ==> term == Join(Content(rest[..FirstClose(rest)]), ";")
  {
    ghost var p: nat := 0;
    term, lit, overrun := "", lit0, false;
    var line, sep := "", "";
    while line != "}"
      invariant p <= |rest| && lit < |lines| && InBlock(rest, p, term, sep)
      invariant line == "}" ==> lit == lit0 + 1 + p && p < |rest| && rest[p].text == "}"
      invariant line != "}" ==> lit == lit0 + p
      decreases |rest| - p, line != "}"
    {
      lit := lit + 1;
      if lit == |lines| {
        InBlockEnds(rest, p, term, sep);
        return term, lit, true;
      }
      line := lines[lit];
      TextAt(lines, ls, lit);
      assert rest[p] == ls[lit];
      line := TrimAgain(line);
      if line[0] == '#' {
        CommentInBlockStep(rest, p, term, sep);
        p := p + 1;
        continue;
      }
      if line != "}" {
        LineInBlockStep(rest, p, term, sep);
        p := p + 1;
        term := term + (sep + line);
        sep := ";";
      }
    }
    InBlockEnds(rest, p, term, sep);
  }

  /** The lines of the list are trimmed already; the inner loop trims them again. */
  method TrimAgain(line: string) returns (r: string)
    requires IsContentLine(line)
    ensures r == line
  {
    TrimmedOfTrimmed(line);
    r := TrimString(line);
  }

  class ServerParameters {
    var entries: Table

    constructor ()
      ensures entries == map[]
    {
      entries := map[];
    }

    /** `read_parameters` on the text of a file. `overrun` tells that the inner loop moved the
        cursor past the last line, where the source's behaviour is undefined. */
    method ReadParameters(fileBuffer: string, noComments: bool) returns (ok: bool, overrun: bool)
      requires IsText(fileBuffer)
      modifies this
      ensures ok
      ensures entries == Store(old(entries), ReadText(fileBuffer, noComments).entries)
      ensures overrun <==> !ReadText(fileBuffer, noComments).closed
    {
      var lines := ToNoEmptyLines(fileBuffer);
      ContentLinesAreContent(fileBuffer);
      ClassifyContent(lines);
      overrun := ReadLines(lines, noComments, ClassifyAll(lines));
      ok := true;
    }

    /** The loop over the lines. */
    method ReadLines(lines: seq<string>, noComments: bool, ghost ls: seq<Line>) returns (overrun: bool)
      requires ReadAs(lines, ls)
      modifies this
      ensures Outcome(entries, !overrun) == Resumed(old(entries), ls, noComments)
    {
      var lit := 0;
      overrun := false;
      ghost var goal := Resumed(entries, ls, noComments);
      LeadsFrom(entries, ls, noComments);
      while lit < |lines|
        invariant lit <= |lines| && Leads(entries, ls, lit, noComments, goal)
        decreases |lines| - lit
      {
        ghost var table, at := entries, lit;
        lit, overrun := ReadRound(lines, lit, noComments, ls);
        if overrun {
          OverrunStep(table, ls, at, noComments, goal);
          return;
        }
        RoundStep(table, ls, at, lit, noComments, goal);
      }
      NothingLeft(entries, ls, noComments, goal);
    }

    /** The body of that loop: enters the definition at the cursor, if there is one, and goes on behind it. */
    method ReadRound(lines: seq<string>, lit0: nat, noComments: bool, ghost ls: seq<Line>)
      returns (lit: nat, overrun: bool)
      requires ReadAs(lines, ls) && lit0 < |lines|
      modifies this
      ensures overrun <==> Unclosed(ls[lit0..], noComments)
      ensures overrun ==> entries == old(entries)
      ensures !overrun ==> lit == lit0 + Width(ls[lit0..], noComments)
      ensures !overrun ==> entries == Entered(old(entries), First(ls[lit0..], noComments))
    {
      SkippedAt(lines, ls, lit0, noComments);
      if noComments && lines[lit0][0] == '#' {
        return lit0 + 1, false;
      }
      var key, term;
      key, term, lit, overrun := ReadDefinition(lines, lit0, noComments, ls);
      if overrun { return; }
      entries := entries[key := term];
      lit := lit + 1;
    }
  }

  /** The key and the value that the definition at line `lit` is entered with, and the line behind it. */
  ghost predicate Defines(lines: seq<Line>, lit: nat, noComments: bool, key: string, term: string, next: nat) {
    && lit < |lines| && !Unclosed(lines[lit..], noComments) && next == lit + Width(lines[lit..], noComments)
    && |First(lines[lit..], noComments)| == 1
    && var e := First(lines[lit..], noComments)[0];
       key == e.key && term == ValueOf(e)
  }

  /** The definition on the line at the cursor, which is left on its last line, or past the list. */
  method ReadDefinition(lines: seq<string>, lit0: nat, noComments: bool, ghost ls: seq<Line>)
    returns (key: string, term: string, lit: nat, overrun: bool)
    requires lit0 < |lines| && ReadAs(lines, ls) && !Skipped(ls[lit0], noComments)
    ensures overrun <==> Unclosed(ls[lit0..], noComments)
    ensures !overrun ==> Defines(ls, lit0, noComments, key, term, lit + 1)
  {
    lit, overrun := lit0, false;
    key, term := SplitDefinition(lines, lit, ls);
    if term != "{" {
      ScalarDefines(ls, lit0, noComments);
    } else {
      term, lit, overrun := ReadBlock(lines, lit, ls, ls[lit + 1..]);
      BlockDefines(ls, lit0, noComments, ls[lit0 + 1..], term);
    }
  }

  /** The two sides of the first colon, trimmed; a line without a colon is a key with an empty term. */
  method SplitDefinition(lines: seq<string>, lit: nat, ghost ls: seq<Line>) returns (key: string, term: string)
    requires ReadAs(lines, ls) && lit < |lines|
    ensures ':' !in lines[lit] ==> key == lines[lit] && term == ""
    ensures ':' in lines[lit] ==> exists head, rest ::
      lines[lit] == head + ":" + rest && ':' !in head && key == Trimmed(head) && term == Trimmed(rest)
    ensures key == ls[lit].key && term == ls[lit].term
  {
    assert ReadsAs(lines, ls, lit);
    var pardef := lines[lit];
    TrimmedOfTrimmed(pardef);
    TrimmedOfTrimmed("");
    key, term := SplitString(pardef, "", ':');
    key := TrimString(key);
    term := TrimString(term);
  }

  datatype Outcome = Outcome(table: Table, closed: bool)

  /** What is still to be done with these lines: the final table, and the closing. */
  ghost function Resumed(table: Table, rest: seq<Line>, noComments: bool): Outcome {
    var r := Read(rest, noComments);
    Outcome(Store(table, r.entries), r.closed)
  }

  /** The table with one more definition in it. */
  function Entered(table: Table, es: seq<Entry>): Table {
    if es == [] then table else table[es[0].key := ValueOf(es[0])]
  }

  /** From this table and line the loop comes to the outcome `goal`. */
  ghost predicate Leads(table: Table, lines: seq<Line>, lit: nat, noComments: bool, goal: Outcome) {
    lit <= |lines| && goal == Resumed(table, lines[lit..], noComments)
  }

  lemma LeadsFrom(table: Table, lines: seq<Line>, noComments: bool)
    ensures Leads(table, lines, 0, noComments, Resumed(table, lines, noComments))
  {
    assert lines[0..] == lines;
  }

  lemma NothingLeft(table: Table, lines: seq<Line>, noComments: bool, goal: Outcome)
    requires Leads(table, lines, |lines|, noComments, goal)
    ensures goal == Outcome(table, true)
  {
  }

  lemma StoreFirst(table: Table, e: seq<Entry>, es: seq<Entry>)
    requires |e| <= 1
    ensures Store(table, e + es) == Store(Entered(table, e), es)
  {
    if e == [] { assert e + es == es; } else { assert (e + es)[1..] == es; }
  }

  lemma ResumedStep(table: Table, ls: seq<Line>, rest: seq<Line>, noComments: bool, e: seq<Entry>)
    requires ls != [] && !Unclosed(ls, noComments)
    requires e == First(ls, noComments) && rest == ls[Width(ls, noComments)..]
    ensures Resumed(table, ls, noComments) == Resumed(Entered(table, e), rest, noComments)
  {
    ReadStep(ls, noComments);
    StoreFirst(table, e, Read(rest, noComments).entries);
  }

  // The steps of the loop.

  lemma RoundStep(table: Table, lines: seq<Line>, lit: nat, next: nat, noComments: bool, goal: Outcome)
    requires lit < |lines| && Leads(table, lines, lit, noComments, goal)
    requires !Unclosed(lines[lit..], noComments) && next == lit + Width(lines[lit..], noComments)
    ensures Leads(Entered(table, First(lines[lit..], noComments)), lines, next, noComments, goal)
  {
    assert lines[lit..][next - lit..] == lines[next..];
    ResumedStep(table, lines[lit..], lines[next..], noComments, First(lines[lit..], noComments));
  }

  lemma OverrunStep(table: Table, lines: seq<Line>, lit: nat, noComments: bool, goal: Outcome)
    requires lit < |lines| && Unclosed(lines[lit..], noComments) && Leads(table, lines, lit, noComments, goal)
    ensures goal == Outcome(table, false)
  {
  }

  // The definition at the cursor, by what its line is.

  lemma ScalarDefines(lines: seq<Line>, lit: nat, noComments: bool)
    requires lit < |lines| && !Skipped(lines[lit], noComments) && lines[lit].term != "{"
    ensures Defines(lines, lit, noComments, lines[lit].key, lines[lit].term, lit + 1)
    ensures !Unclosed(lines[lit..], noComments)
  {}

  lemma BlockDefines(lines: seq<Line>, lit: nat, noComments: bool, rest: seq<Line>, value: string)
    requires lit < |lines| && IsHeader(lines[lit], noComments) && rest == lines[lit + 1..]
    requires FirstClose(rest) < |rest| ==> value == Join(Content(rest[..FirstClose(rest)]), ";")
    ensures Unclosed(lines[lit..], noComments) <==> FirstClose(rest) == |rest|
    ensures FirstClose(rest) < |rest| ==>
      Defines(lines, lit, noComments, lines[lit].key, value, lit + 2 + FirstClose(rest))
  {
    assert lines[lit..][1..] == rest;
  }
}

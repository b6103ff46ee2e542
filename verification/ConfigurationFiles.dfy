/** The same promises for whole files: printing and reading back, and what the users of block values
    get out of them. */
module ConfigurationFiles {
  import opened CStrings
  import opened Trimming
  import opened LineSplitting
  import opened ItemLists
  import opened ItemLaws
  import opened Substitution
  import opened Configuration
  import opened ConfigurationLaws
  import opened ConfigurationLayout

  // ----- printing -----

  predicate IsKey(k: string, noComments: bool) {
    IsTrimmed(k) && ':' !in k && '\n' !in k && IsText(k) && (noComments && k != "" ==> k[0] != '#')
  }

  predicate IsBlockLine(x: string) {
    IsContentLine(x) && x != "}" && x[0] != '#'
  }

  predicate IsPrintable(e: Entry, noComments: bool) {
    && IsKey(e.key, noComments)
    && match e
       case Scalar(_, term) => IsTrimmed(term) && '\n' !in term && IsText(term) && term != "{"
       case Block(_, lines) => forall x | x in lines :: IsBlockLine(x)
  }

  lemma DefinitionIsContent(k: string, term: string, noComments: bool)
    requires IsKey(k, noComments) && IsTrimmed(term) && '\n' !in term && IsText(term)
    ensures IsContentLine(k + ":" + term) && (noComments ==> (k + ":" + term)[0] != '#')
  {
    var x := k + ":" + term;
    assert x[0] == if k == "" then ':' else k[0];
    assert x[|x| - 1] == if term == "" then ':' else term[|term| - 1];
  }

  lemma DefinitionLine(k: string, term: string, noComments: bool)
    requires IsKey(k, noComments) && IsTrimmed(term) && '\n' !in term && IsText(term)
    ensures Classify(k + ":" + term) == Line(k + ":" + term, k, term)
  {
    var x := k + ":" + term;
    DefinitionIsContent(k, term, noComments);
    TrimmedOfTrimmed(x);
    CutAtFirst(k, ':', term);
    TrimmedOfTrimmed(k);
    TrimmedOfTrimmed(term);
  }

  lemma PrintedAreContent(e: Entry, noComments: bool)
    requires IsPrintable(e, noComments)
    ensures forall x | x in PrintedEntry(e) :: IsContentLine(x)
  {
    match e
    case Scalar(k, term) => DefinitionIsContent(k, term, noComments);
    case Block(k, lines) =>
      DefinitionIsContent(k, "{", noComments);
      assert k + ":" + "{" == k + ":{";
      forall x | x in [k + ":{"] + lines + ["}"] ensures IsContentLine(x) {
        assert x in [k + ":{"] || x in lines || x in ["}"];
        assert IsContentLine("}");
      }
  }

  lemma {:induction false} PrintedLinesAreContent(es: seq<Entry>, noComments: bool)
    requires forall e | e in es :: IsPrintable(e, noComments)
    ensures forall x | x in PrintedLines(es) :: IsContentLine(x)
  {
    if es != [] {
      assert es[0] in es;
      PrintedAreContent(es[0], noComments);
      PrintedLinesAreContent(es[1..], noComments);
    }
  }

  lemma {:induction false} BlockLinesAreContent(lines: seq<string>)
    requires forall x | x in lines :: IsBlockLine(x)
    ensures Content(ClassifyAll(lines)) == lines && NoClose(ClassifyAll(lines))
  {
    if lines != [] {
      assert lines[0] in lines;
      BlockLinesAreContent(lines[1..]);
      var ls := ClassifyAll(lines);
      assert ls[1..] == ClassifyAll(lines[1..]);
      forall i | 0 <= i < |ls| ensures ls[i].text != "}" {
        if i > 0 { assert ls[i] == ls[1..][i - 1]; }
      }
    }
  }

  lemma PrintedScalarReadsBack(k: string, term: string, noComments: bool)
    requires IsPrintable(Scalar(k, term), noComments)
    ensures Read(ClassifyAll([k + ":" + term]), noComments) == Reading([Scalar(k, term)], true)
  {
    DefinitionLine(k, term, noComments);
    DefinitionIsContent(k, term, noComments);
    var l := Line(k + ":" + term, k, term);
    assert ClassifyAll([k + ":" + term]) == [l];
    ReadScalar(l, noComments);
  }

  lemma ReadScalar(l: Line, noComments: bool)
    requires !Skipped(l, noComments) && l.term != "{"
    ensures Read([l], noComments) == Reading([Scalar(l.key, l.term)], true)
  {
    assert [l][1..] == [];
    ReadStep([l], noComments);
  }

  lemma PrintedBlockReadsBack(k: string, lines: seq<string>, noComments: bool)
    requires IsPrintable(Block(k, lines), noComments)
    ensures Read(ClassifyAll([k + ":{"] + lines + ["}"]), noComments) == Reading([Block(k, lines)], true)
  {
    var h := k + ":" + "{";
    assert h == k + ":{";
    DefinitionLine(k, "{", noComments);
    DefinitionIsContent(k, "{", noComments);
    BlockLinesAreContent(lines);
    ClassifyBlock(h, lines, "}");
    ReadWholeBlock(Classify(h), ClassifyAll(lines), Classify("}"), noComments);
  }

  lemma ClassifyBlock(h: string, lines: seq<string>, z: string)
    ensures ClassifyAll([h] + lines + [z]) == [Classify(h)] + ClassifyAll(lines) + [Classify(z)]
  {
    ClassifyConcat([h] + lines, [z]);
    ClassifyConcat([h], lines);
    ClassifyOne(h);
    ClassifyOne(z);
  }

  lemma ReadWholeBlock(h: Line, inner: seq<Line>, z: Line, noComments: bool)
    requires IsHeader(h, noComments) && NoClose(inner) && z.text == "}"
    ensures Read([h] + inner + [z], noComments) == Reading([Block(h.key, Content(inner))], true)
  {
    var lines, es := [h] + inner + [z], [Block(h.key, Content(inner))];
    assert lines == [h] + (inner + ([z] + [])) && es + [] == es;
    ReadClosedBlock(h, inner, z, [], noComments);
  }

  lemma PrintedEntryReadsBack(e: Entry, noComments: bool)
    requires IsPrintable(e, noComments)
    ensures Read(ClassifyAll(PrintedEntry(e)), noComments) == Reading([e], true)
  {
    match e
    case Scalar(k, term) => PrintedScalarReadsBack(k, term, noComments);
    case Block(k, lines) => PrintedBlockReadsBack(k, lines, noComments);
  }

  lemma ReadsBackConcat(a: seq<Line>, b: seq<Line>, es: seq<Entry>, fs: seq<Entry>, noComments: bool)
    requires Read(a, noComments) == Reading(es, true) && Read(b, noComments) == Reading(fs, true)
    ensures Read(a + b, noComments) == Reading(es + fs, true)
  {
    ReadConcat(a, b, noComments);
  }

  lemma {:induction false} PrintedLinesReadBack(es: seq<Entry>, noComments: bool)
    requires forall e | e in es :: IsPrintable(e, noComments)
    ensures Read(ClassifyAll(PrintedLines(es)), noComments) == Reading(es, true)
  {
    if es != [] {
      var e, fs := es[0], es[1..];
      assert e in es && es == [e] + fs;
      PrintedEntryReadsBack(e, noComments);
      PrintedLinesReadBack(fs, noComments);
      ClassifyConcat(PrintedEntry(e), PrintedLines(fs));
      ReadsBackConcat(ClassifyAll(PrintedEntry(e)), ClassifyAll(PrintedLines(fs)), [e], fs, noComments);
    }
  }

  lemma PrintedMembersAreText(xs: seq<string>)
    requires forall x | x in xs :: IsText(x)
    ensures IsText(Unlines(xs))
  {
    if xs != [] {
      assert xs[0] in xs;
      PrintedMembersAreText(xs[1..]);
    }
  }

  /** What is printed is a text that the reader takes. */
  lemma PrintedIsText(es: seq<Entry>, noComments: bool)
    requires forall e | e in es :: IsPrintable(e, noComments)
    ensures IsText(Unlines(PrintedLines(es)))
  {
    PrintedLinesAreContent(es, noComments);
    PrintedMembersAreText(PrintedLines(es));
  }

  lemma {:induction false} PrintableReadsBack(es: seq<Entry>, noComments: bool)
    requires forall e | e in es :: IsPrintable(e, noComments)
    ensures ReadText(Unlines(PrintedLines(es)), noComments) == Reading(es, true)
  {
    PrintedLinesAreContent(es, noComments);
    PrintedLinesReadBack(es, noComments);
    ContentLinesOfUnlines(PrintedLines(es));
  }

  // ----- what is read can be printed -----

  /** A line as the reader takes it from a text. */
  predicate IsRead(line: Line) {
    IsContentLine(line.text) && line == Classify(line.text)
  }

  lemma TrimmedPart(x: string, h: string)
    requires IsText(x) && '\n' !in x && forall c | c in h :: c in x
    ensures IsTrimmed(Trimmed(h)) && '\n' !in Trimmed(h) && IsText(Trimmed(h))
    ensures ':' !in h ==> ':' !in Trimmed(h)
  {
    var p, q := TrimmedParts(h);
    TrimmedMembers(h);
  }

  lemma FrontStays(h: string)
    requires h != "" && !IsSpace(h[0])
    ensures Trimmed(h) != "" && Trimmed(h)[0] == h[0]
  {
    LeadingBlanksUnique(h, 0);
    TrimRightParts(h);
    assert h[0..] == h;
  }

  lemma KeyPart(x: string, h: string, noComments: bool)
    requires IsContentLine(x) && (noComments ==> x[0] != '#') && ':' !in h && h <= x
    ensures IsKey(Trimmed(h), noComments)
  {
    TrimmedPart(x, h);
    if h != "" {
      assert h[0] == x[0];
      FrontStays(h);
    } else {
      TrimmedBlank(h);
    }
  }

  lemma KeyOfLine(x: string, noComments: bool)
    requires IsContentLine(x) && (noComments ==> x[0] != '#')
    ensures var line := Classify(x);
      IsKey(line.key, noComments) && IsTrimmed(line.term) && '\n' !in line.term && IsText(line.term)
  {
    TrimmedOfTrimmed(x);
    var Split(h, r) := Cut(x, ':');
    KeyPart(x, h, noComments);
    TrimmedPart(x, r);
  }

  lemma {:induction false} ContentMembers(lines: seq<Line>)
    ensures forall x | x in Content(lines) :: exists l :: l in lines && l.text == x && !IsComment(l)
  {
    if lines != [] {
      ContentMembers(lines[1..]);
      forall x | x in Content(lines) ensures exists l :: l in lines && l.text == x && !IsComment(l) {
        if x in Content(lines[1..]) {
          var l :| l in lines[1..] && l.text == x && !IsComment(l);
          assert l in lines;
        } else {
          assert lines[0] in lines;
        }
      }
    }
  }

  lemma BlockLines(lines: seq<Line>)
    requires forall l | l in lines :: IsRead(l) && l.text != "}"
    ensures forall x | x in Content(lines) :: IsBlockLine(x)
  {
    ContentMembers(lines);
  }

  lemma HeadIsPrintable(h: Line, inner: seq<Line>, noComments: bool)
    requires IsRead(h) && !Skipped(h, noComments)
    requires forall l | l in inner :: IsRead(l) && l.text != "}"
    ensures h.term != "{" ==> IsPrintable(Scalar(h.key, h.term), noComments)
    ensures IsPrintable(Block(h.key, Content(inner)), noComments)
  {
    KeyOfLine(h.text, noComments);
    BlockLines(inner);
  }

  lemma FirstIsPrintable(lines: seq<Line>, noComments: bool)
    requires lines != [] && forall l | l in lines :: IsRead(l)
    ensures forall e | e in First(lines, noComments) :: IsPrintable(e, noComments)
  {
    var h, rest := lines[0], lines[1..];
    if !Skipped(h, noComments) {
      var inner := rest[..FirstClose(rest)];
      forall l | l in inner ensures IsRead(l) && l.text != "}" {
        assert l in lines;
      }
      assert h in lines;
      HeadIsPrintable(h, inner, noComments);
    }
  }

  /** Every definition that is read can be printed. */
  lemma {:induction false} EntriesArePrintable(lines: seq<Line>, noComments: bool)
    requires forall l | l in lines :: IsRead(l)
    ensures forall e | e in Read(lines, noComments).entries :: IsPrintable(e, noComments)
    decreases |lines|
  {
    if lines != [] && !Unclosed(lines, noComments) {
      var rest := lines[Width(lines, noComments)..];
      ReadStep(lines, noComments);
      FirstIsPrintable(lines, noComments);
      EntriesArePrintable(rest, noComments);
    }
  }

  lemma TextIsPrintable(text: string, noComments: bool)
    requires IsText(text)
    ensures forall e | e in ReadText(text, noComments).entries :: IsPrintable(e, noComments)
  {
    var xs := ContentLines(text);
    ContentLinesAreContent(text);
    ClassifyAt(xs);
    forall l | l in ClassifyAll(xs) ensures IsRead(l) {
      var i :| 0 <= i < |xs| && ClassifyAll(xs)[i] == l;
      assert xs[i] in xs;
    }
    EntriesArePrintable(ClassifyAll(xs), noComments);
  }

  /** Definitions are read back from their printed text, in order and with nothing else, if and
      only if all of them are printable. With `Store` this gives the whole effect on a table. */
  lemma PrintedFileReadsBack(es: seq<Entry>, noComments: bool)
    requires IsText(Unlines(PrintedLines(es)))
    ensures ReadText(Unlines(PrintedLines(es)), noComments) == Reading(es, true)
       <==> forall e | e in es :: IsPrintable(e, noComments)
  {
    TextIsPrintable(Unlines(PrintedLines(es)), noComments);
    if forall e | e in es :: IsPrintable(e, noComments) { PrintableReadsBack(es, noComments); }
  }

  /** A file with its blocks closed, read, printed and read again, says the same. */
  lemma ReadPrintRead(text: string, noComments: bool)
    requires IsText(text) && ReadText(text, noComments).closed
    ensures var printed := Unlines(PrintedLines(ReadText(text, noComments).entries));
      IsText(printed) && ReadText(printed, noComments) == ReadText(text, noComments)
  {
    TextIsPrintable(text, noComments);
    PrintedIsText(ReadText(text, noComments).entries, noComments);
    PrintableReadsBack(ReadText(text, noComments).entries, noComments);
  }

  // ----- what blocks are used for -----

  /** Splitting the value of a block at `;` gives back exactly its lines, in order, if and only
      if none of them contains a `;` itself. The empty block is included. */
  lemma BlockValueSplits(text: string, noComments: bool, e: Entry)
    requires IsText(text) && e in ReadText(text, noComments).entries && e.Block?
    ensures ItemsOf(ValueOf(e), ';') == e.lines <==> forall x | x in e.lines :: ';' !in x
  {
    TextIsPrintable(text, noComments);
    assert IsPrintable(e, noComments);
    ItemsRoundTrip(e.lines, ';');
    assert e.lines != [] ==> Last(e.lines) in e.lines;
  }

  /** Commands that a variable may be expanded in: none holds a `;`, or gets one by the value, and the
      last is not made of markers alone when the value is blank; if it is the only command, something
      must be left of it. */
  predicate Expandable(commands: seq<string>, marker: string, value: string)
    requires marker != ""
  {
    && (forall x | x in commands :: ';' !in x && (';' in value ==> !Occurs(marker, x)))
    && (commands != [] && Blank(value) && Blank(Replaced(Last(commands), marker, "")) ==>
          |commands| == 1 && (value != "" || Replaced(commands[0], marker, "") != ""))
  }

  lemma VisibleCommands(commands: seq<string>, marker: string, value: string)
    requires marker != "" && (commands != [] ==> !Blank(Last(commands)))
    ensures Replaceable(commands, ';', marker, value) <==> Expandable(commands, marker, value)
  {
    if commands != [] { MarkerFound(Last(commands), marker); }
  }

  /** Without markers nothing of a command is taken away. */
  lemma {:induction false} MarkerFound(x: string, marker: string)
    requires marker != ""
    ensures !Occurs(marker, x) ==> Replaced(x, marker, "") == x
  {
    if x != "" && !Occurs(marker, x) { MarkerFound(x[1..], marker); }
  }

  /** Running a command block of a file with a variable: replacing the marker in the block's value and
      then splitting it gives each command with the marker replaced in it, if and only if the variable
      may be expanded in the commands. */
  lemma BlockCommandsExpand(text: string, noComments: bool, e: Entry, marker: string, value: string)
    requires IsText(text) && e in ReadText(text, noComments).entries && e.Block?
    requires marker != "" && ';' !in marker
    ensures ItemsOf(Replaced(ValueOf(e), marker, value), ';') == TrimAll(ReplacedAll(e.lines, marker, value))
       <==> Expandable(e.lines, marker, value)
  {
    TextIsPrintable(text, noComments);
    assert IsPrintable(e, noComments);
    if e.lines != [] { BlockLineIsVisible(Last(e.lines)); }
    VisibleCommands(e.lines, marker, value);
    ItemsOfReplacedJoin(e.lines, ';', marker, value);
  }

  lemma BlockLineIsVisible(x: string)
    requires IsBlockLine(x)
    ensures !Blank(x)
  {
    assert !IsSpace(x[0]);
  }
}

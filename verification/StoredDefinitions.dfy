/** What the table holds after a file has been read, said of the lines of the file. */
module StoredDefinitions {
  import opened Trimming
  import opened LineSplitting
  import opened ItemLaws
  import opened Configuration
  import opened ConfigurationLaws
  import opened ConfigurationLayout
  import opened ConfigurationFiles

  lemma ReadBetween(a: seq<Line>, m: seq<Line>, b: seq<Line>, e: Entry, noComments: bool)
    requires Read(a, noComments).closed && Read(m, noComments) == Reading([e], true)
    ensures Read(a + m + b, noComments)
         == Reading(Read(a, noComments).entries + [e] + Read(b, noComments).entries, Read(b, noComments).closed)
  {
    ReadConcat(a, m, noComments);
    ReadConcat(a + m, b, noComments);
  }

  lemma StoredBetween(table: Table, before: seq<Entry>, e: Entry, behind: seq<Entry>)
    requires forall f | f in behind :: f.key != e.key
    ensures var t := Store(table, before + [e] + behind);
      e.key in t && t[e.key] == ValueOf(e)
  {
    var es := before + [e] + behind;
    assert es[|before|] == e && es[|before| + 1..] == behind;
    LastDefinitionWins(table, es, |before|);
  }

  /** The lines `xs` of a file, read outside all blocks, define `e`. */
  ghost predicate Define(text: string, a: seq<string>, xs: seq<string>, b: seq<string>, noComments: bool, e: Entry) {
    && IsFileOf(text, a + xs + b) && ReadText(Unlines(a), noComments).closed
    && Read(Taken(xs), noComments) == Reading([e], true)
  }

  lemma PartsOfFile(text: string, a: seq<string>, xs: seq<string>, b: seq<string>, noComments: bool)
    requires IsFileOf(text, a + xs + b)
    ensures OneLiners(a) && OneLiners(b)
    ensures ReadText(Unlines(a), noComments) == Read(Taken(a), noComments)
    ensures ReadText(Unlines(b), noComments) == Read(Taken(b), noComments)
  {
    assert forall y | y in a :: y in a + xs + b;
    assert forall y | y in b :: y in a + xs + b;
    FileIsRead(Unlines(a), a, noComments);
    FileIsRead(Unlines(b), b, noComments);
  }

  /** Such lines add their definition between those of the lines before and behind them. */
  lemma DefinedBetween(text: string, a: seq<string>, xs: seq<string>, b: seq<string>, noComments: bool, e: Entry)
    requires Define(text, a, xs, b, noComments, e)
    ensures var before, behind := ReadText(Unlines(a), noComments), ReadText(Unlines(b), noComments);
      ReadText(text, noComments) == Reading(before.entries + [e] + behind.entries, behind.closed)
  {
    PartsOfFile(text, a, xs, b, noComments);
    FileAround(text, a, xs, b, noComments);
    ReadBetween(Taken(a), Taken(xs), Taken(b), e, noComments);
  }

  lemma DefinedIsStored(table: Table, text: string, a: seq<string>, xs: seq<string>, b: seq<string>,
                        noComments: bool, e: Entry)
    requires Define(text, a, xs, b, noComments, e)
    requires forall f | f in ReadText(Unlines(b), noComments).entries :: f.key != e.key
    ensures var t := Store(table, ReadText(text, noComments).entries);
      e.key in t && t[e.key] == ValueOf(e)
  {
    DefinedBetween(text, a, xs, b, noComments, e);
    StoredBetween(table, ReadText(Unlines(a), noComments).entries, e, ReadText(Unlines(b), noComments).entries);
  }

  // ----- the three kinds of definitions -----

  lemma LineDefines(text: string, a: seq<string>, x: string, b: seq<string>, noComments: bool, k: string, v: string)
    requires IsFileOf(text, a + [x] + b) && ReadText(Unlines(a), noComments).closed
    requires Trimmed(x) != "" && !(noComments && IsCommentLine(x))
    requires Classify(Trimmed(x)) == Line(Trimmed(x), k, v) && v != "{"
    ensures Define(text, a, [x], b, noComments, Scalar(k, v))
  {
    TakenOne(x);
    ReadScalar(Classify(Trimmed(x)), noComments);
  }

  lemma ColonlessDefines(text: string, a: seq<string>, x: string, b: seq<string>, noComments: bool)
    requires IsFileOf(text, a + [x] + b) && ReadText(Unlines(a), noComments).closed
    requires ':' !in x && Trimmed(x) != "" && !(noComments && IsCommentLine(x))
    ensures Define(text, a, [x], b, noComments, Scalar(Trimmed(x), ""))
  {
    TrimmedMembers(x);
    var p, q := TrimmedParts(x);
    ClassifyColonless(Trimmed(x));
    LineDefines(text, a, x, b, noComments, Trimmed(x), "");
  }

  /** A line without a colon that is read outside all blocks maps the whole line to the empty text,
      unless it is defined again behind it. */
  lemma ColonlessIsStored(table: Table, text: string, a: seq<string>, x: string, b: seq<string>, noComments: bool)
    requires IsFileOf(text, a + [x] + b) && ReadText(Unlines(a), noComments).closed
    requires ':' !in x && Trimmed(x) != "" && !(noComments && IsCommentLine(x))
    requires forall f | f in ReadText(Unlines(b), noComments).entries :: f.key != Trimmed(x)
    ensures var t := Store(table, ReadText(text, noComments).entries);
      Trimmed(x) in t && t[Trimmed(x)] == ""
  {
    ColonlessDefines(text, a, x, b, noComments);
    DefinedIsStored(table, text, a, [x], b, noComments, Scalar(Trimmed(x), ""));
  }

  lemma PairDefines(text: string, a: seq<string>, k: string, v: string, b: seq<string>, noComments: bool)
    requires IsFileOf(text, a + [k + ":" + v] + b) && ReadText(Unlines(a), noComments).closed
    requires ':' !in k && Trimmed(v) != "{" && !(noComments && IsCommentLine(k + ":" + v))
    ensures Define(text, a, [k + ":" + v], b, noComments, Scalar(Trimmed(k), Trimmed(v)))
  {
    DefinitionTaken(k, v);
    LineDefines(text, a, k + ":" + v, b, noComments, Trimmed(k), Trimmed(v));
  }

  /** A line with a colon maps what stands in front of its first colon to what stands behind it. */
  lemma PairIsStored(table: Table, text: string, a: seq<string>, k: string, v: string, b: seq<string>,
                     noComments: bool)
    requires IsFileOf(text, a + [k + ":" + v] + b) && ReadText(Unlines(a), noComments).closed
    requires ':' !in k && Trimmed(v) != "{" && !(noComments && IsCommentLine(k + ":" + v))
    requires forall f | f in ReadText(Unlines(b), noComments).entries :: f.key != Trimmed(k)
    ensures var t := Store(table, ReadText(text, noComments).entries);
      Trimmed(k) in t && t[Trimmed(k)] == Trimmed(v)
  {
    PairDefines(text, a, k, v, b, noComments);
    DefinedIsStored(table, text, a, [k + ":" + v], b, noComments, Scalar(Trimmed(k), Trimmed(v)));
  }

  lemma BlockTaken(h: string, xs: seq<string>, z: string)
    requires Trimmed(h) != "" && Trimmed(z) != "" && forall x | x in xs :: IsBlockLine(Trimmed(x))
    ensures Taken([h] + xs + [z]) == [Classify(Trimmed(h))] + ClassifyAll(TrimAll(xs)) + [Classify(Trimmed(z))]
  {
    TakenConcat([h] + xs, [z]);
    TakenConcat([h], xs);
    TakenOne(h);
    TakenOne(z);
    AllNonEmpty(TrimAll(xs));
  }

  lemma BlockDefinition(text: string, a: seq<string>, k: string, v: string, xs: seq<string>, z: string,
                        b: seq<string>, noComments: bool)
    requires IsFileOf(text, a + ([k + ":" + v] + xs + [z]) + b) && ReadText(Unlines(a), noComments).closed
    requires ':' !in k && Trimmed(v) == "{" && !(noComments && IsCommentLine(k + ":" + v))
    requires Trimmed(z) == "}" && forall x | x in xs :: IsBlockLine(Trimmed(x))
    ensures Define(text, a, [k + ":" + v] + xs + [z], b, noComments, Block(Trimmed(k), TrimAll(xs)))
  {
    var h := k + ":" + v;
    DefinitionTaken(k, v);
    BlockTaken(h, xs, z);
    BlockIsRead(Classify(Trimmed(h)), TrimAll(xs), noComments);
  }

  lemma BlockIsRead(h: Line, ys: seq<string>, noComments: bool)
    requires IsHeader(h, noComments) && forall y | y in ys :: IsBlockLine(y)
    ensures Read([h] + ClassifyAll(ys) + [Classify("}")], noComments) == Reading([Block(h.key, ys)], true)
  {
    BlockLinesAreContent(ys);
    ReadWholeBlock(h, ClassifyAll(ys), Classify("}"), noComments);
  }

  /** A block maps its key to its trimmed lines, joined by `;`. */
  lemma BlockIsStored(table: Table, text: string, a: seq<string>, k: string, v: string, xs: seq<string>, z: string,
                      b: seq<string>, noComments: bool)
    requires IsFileOf(text, a + ([k + ":" + v] + xs + [z]) + b) && ReadText(Unlines(a), noComments).closed
    requires ':' !in k && Trimmed(v) == "{" && !(noComments && IsCommentLine(k + ":" + v))
    requires Trimmed(z) == "}" && forall x | x in xs :: IsBlockLine(Trimmed(x))
    requires forall f | f in ReadText(Unlines(b), noComments).entries :: f.key != Trimmed(k)
    ensures var t := Store(table, ReadText(text, noComments).entries);
      Trimmed(k) in t && t[Trimmed(k)] == Join(TrimAll(xs), ";")
  {
    BlockDefinition(text, a, k, v, xs, z, b, noComments);
    DefinedIsStored(table, text, a, [k + ":" + v] + xs + [z], b, noComments, Block(Trimmed(k), TrimAll(xs)));
  }
}

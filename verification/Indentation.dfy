/** Lines whose indentation by tabs says how deep they are. */
module Indentation {
  import opened CStrings
  import opened Trimming
  import opened LineSplitting

  datatype LineItem = LineItem(depth: int, line: string)

  function TabRun(n: nat): string {
    seq(n, _ => '\t')
  }

  /** `tabs`: one tab less than its argument says, because the counter is raised before it is
      compared. */
  method Tabs(depth: int) returns (frontTab: string)
    ensures |frontTab| == (if depth > 0 then depth - 1 else 0) && forall i | 0 <= i < |frontTab| :: frontTab[i] == '\t'
    ensures frontTab == TabRun(if depth > 0 then depth - 1 else 0)
  {
    frontTab := "";
    var i := 1;
    while i < depth
      invariant 1 <= i && (i <= depth || i == 1)
      invariant frontTab == TabRun(i - 1)
    {
      frontTab := frontTab + "\t";
      i := i + 1;
    }
  }

  function TabCount(s: string): nat {
    if s == "" then 0 else (if s[|s| - 1] == '\t' then 1 else 0) + TabCount(s[..|s| - 1])
  }

  /** The tabs among the whitespace that a line starts with. */
  function DepthOf(s: string): nat {
    TabCount(s[..LeadingBlanks(s)])
  }

  method CountTabs(lineRep: string) returns (i: int)
    requires IsText(lineRep)
    ensures i == multiset(lineRep[..LeadingBlanks(lineRep)])['\t']
    ensures i == DepthOf(lineRep)
  {
    var buf := ToBuffer(lineRep);
    HoldsAt(buf[..], 0, lineRep);
    var stmp := 0;
    i := 0;
    while IsSpace(buf[stmp])
      invariant stmp <= LeadingBlanks(lineRep) && i == TabCount(lineRep[..stmp])
      decreases |lineRep| - stmp
    {
      assert stmp < |lineRep| && buf[stmp] == lineRep[stmp];
      assert lineRep[..stmp + 1][..stmp] == lineRep[..stmp];
      var c := buf[stmp];
      stmp := stmp + 1;
      if c == '\t' { i := i + 1; }
    }
    LeadingBlanksUnique(lineRep, stmp);
    TabCountIs(lineRep[..stmp]);
  }

  /** Only tabs are counted, wherever they stand. */
  lemma {:induction false} TabCountIs(s: string)
    ensures TabCount(s) == multiset(s)['\t']
  {
    if s != "" {
      var n := |s| - 1;
      assert s == s[..n] + [s[n]];
      TabCountIs(s[..n]);
    }
  }

  /** The items of a page: its lines that are not empty. */
  function ItemsOfLines(xs: seq<string>): seq<LineItem> {
    if xs == [] then []
    else (if xs[0] == "" then [] else [LineItem(DepthOf(xs[0]), Trimmed(xs[0]))]) + ItemsOfLines(xs[1..])
  }

  function PageItems(s: string): seq<LineItem> {
    ItemsOfLines(Lines(s))
  }

  /** An item of a page: the depth is the number of tabs that its line is indented by, other whitespace
      does not count, and the text is trimmed. */
  ghost predicate IsItemOf(it: LineItem, line: string) {
    it.depth == multiset(line[..LeadingBlanks(line)])['\t'] && it.line == Trimmed(line)
  }

  /** The items of a page are those of its nonempty lines, one each, in their order. */
  lemma {:induction false} ItemsOfLinesAre(xs: seq<string>)
    ensures |ItemsOfLines(xs)| == |NonEmpty(xs)|
    ensures forall i | 0 <= i < |NonEmpty(xs)| :: IsItemOf(ItemsOfLines(xs)[i], NonEmpty(xs)[i])
  {
    if xs != [] {
      ItemsOfLinesAre(xs[1..]);
      TabCountIs(xs[0][..LeadingBlanks(xs[0])]);
      if xs[0] != "" {
        forall i | 0 <= i < |NonEmpty(xs)| ensures IsItemOf(ItemsOfLines(xs)[i], NonEmpty(xs)[i]) {
          assert i > 0 ==> NonEmpty(xs)[i] == NonEmpty(xs[1..])[i - 1];
          assert i > 0 ==> ItemsOfLines(xs)[i] == ItemsOfLines(xs[1..])[i - 1];
        }
      }
    }
  }

  /** Lines that are indented without tabs are not deep. */
  lemma FlatWithoutTabs(s: string)
    requires forall x | x in Lines(s) :: '\t' !in x[..LeadingBlanks(x)]
    ensures forall it | it in PageItems(s) :: it.depth == 0
  {
    var xs := Lines(s);
    ItemsOfLinesAre(xs);
    NonEmptyMembers(xs);
    forall it | it in PageItems(s) ensures it.depth == 0 {
      var i :| 0 <= i < |PageItems(s)| && PageItems(s)[i] == it;
      assert NonEmpty(xs)[i] in NonEmpty(xs) && IsItemOf(it, NonEmpty(xs)[i]);
    }
  }

  lemma ItemStep(s: string, line: string, rest: string)
    requires Lines(s) == [line] + Lines(rest)
    ensures line == "" ==> PageItems(s) == PageItems(rest)
    ensures line != "" ==> PageItems(s) == [LineItem(DepthOf(line), Trimmed(line))] + PageItems(rest)
  {
    assert Lines(s)[1..] == Lines(rest);
  }

  /** `extract_indented_lines`. */
  method ExtractIndentedLines(data: array<char>, ghost s: string) returns (lines: seq<LineItem>)
    requires Holds(data[..], 0, s)
    modifies data
    ensures |lines| == |NonEmpty(Lines(s))|
    ensures forall i | 0 <= i < |lines| :: IsItemOf(lines[i], NonEmpty(Lines(s))[i])
    ensures lines == PageItems(s) && data[..] == old(data[..])
  {
    ItemsOfLinesAre(Lines(s));
    var tmp: nat := 0;
    ghost var rest := s;
    lines := [];
    while data[tmp] != NUL
      invariant Holds(data[..], tmp, rest) && data[..] == old(data[..])
      invariant lines + PageItems(rest) == PageItems(s)
      decreases |rest|
    {
      ghost var before := rest;
      var line;
      line, tmp, rest := ExtractLine(data, tmp, rest);
      ItemStep(before, line, rest);
      if line != "" {
        var depth := CountTabs(line);
        var text := TrimString(line);
        Regroup(lines, LineItem(depth, text), PageItems(rest));
        lines := lines + [LineItem(depth, text)];
      }
    }
  }

  /** How an item is printed: `tabs(depth + 1)` and the line. */
  function PrintedItem(it: LineItem): string {
    TabRun(if it.depth > 0 then it.depth else 0) + it.line
  }

  function PrintedItems(items: seq<LineItem>): seq<string> {
    if items == [] then [] else [PrintedItem(items[0])] + PrintedItems(items[1..])
  }

  method PrintItem(it: LineItem) returns (s: string)
    ensures s == PrintedItem(it) + "\n"
  {
    var front := Tabs(it.depth + 1);
    s := front + it.line + "\n";
  }

  predicate IsItem(it: LineItem) {
    it.depth >= 0 && IsTrimmed(it.line) && '\n' !in it.line && (it.line != "" || it.depth > 0)
  }

  lemma {:induction false} TabCountRun(n: nat)
    ensures TabCount(TabRun(n)) == n
  {
    if n > 0 {
      assert TabRun(n)[..n - 1] == TabRun(n - 1);
      TabCountRun(n - 1);
    }
  }

  lemma ItemReadsBack(it: LineItem)
    requires IsItem(it)
    ensures var x := PrintedItem(it);
      '\n' !in x && x != "" && DepthOf(x) == it.depth && Trimmed(x) == it.line
  {
    var t, x := TabRun(it.depth), PrintedItem(it);
    LeadingBlanksUnique(x, it.depth);
    assert x[..it.depth] == t;
    TabCountRun(it.depth);
    TrimmedUnique(t, it.line, "");
    assert t + it.line + "" == x;
  }

  lemma {:induction false} GoodItemsReadBack(items: seq<LineItem>)
    requires forall it | it in items :: IsItem(it)
    ensures OneLiners(PrintedItems(items)) && ItemsOfLines(PrintedItems(items)) == items
  {
    if items != [] {
      assert items[0] in items;
      ItemReadsBack(items[0]);
      GoodItemsReadBack(items[1..]);
    }
  }

  /** What comes out of a page is trimmed, on one line, and not negatively deep. */
  lemma {:induction false} ItemsAreTrimmed(xs: seq<string>)
    requires OneLiners(xs)
    ensures forall it | it in ItemsOfLines(xs) :: it.depth >= 0 && IsTrimmed(it.line) && '\n' !in it.line
    ensures |ItemsOfLines(xs)| <= |xs| && ("" in xs ==> |ItemsOfLines(xs)| < |xs|)
  {
    if xs != [] {
      assert xs[0] in xs && forall x | x in xs[1..] :: x in xs;
      ItemsAreTrimmed(xs[1..]);
      var p, q := TrimmedParts(xs[0]);
      TrimmedMembers(xs[0]);
    }
  }

  lemma {:induction false} PrintedMembers(items: seq<LineItem>)
    ensures |PrintedItems(items)| == |items|
    ensures forall it | it in items :: PrintedItem(it) in PrintedItems(items)
    ensures (forall it | it in items :: '\n' !in it.line) ==> OneLiners(PrintedItems(items))
  {
    if items != [] { PrintedMembers(items[1..]); }
  }

  /** Reading inverts printing for exactly the item lists whose lines are trimmed, without
      newlines, not negatively deep, and not both empty and at depth 0. */
  lemma IndentationRoundTrip(items: seq<LineItem>)
    ensures PageItems(Unlines(PrintedItems(items))) == items <==> forall it | it in items :: IsItem(it)
  {
    var xs := PrintedItems(items);
    var page := Unlines(xs);
    assert page + "" == page;
    UnlinesOfLines(page);
    ItemsAreTrimmed(Lines(page));
    PrintedMembers(items);
    if ItemsOfLines(Lines(page)) == items {
      LinesOfUnlines(xs, "");
      forall it | it in items ensures IsItem(it) {
        assert PrintedItem(it) in xs;
        assert it.line == "" && it.depth == 0 ==> PrintedItem(it) == "";
      }
    }
    if forall it | it in items :: IsItem(it) {
      GoodItemsReadBack(items);
      LinesOfUnlines(xs, "");
    }
  }
}

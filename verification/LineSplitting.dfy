/** Cutting a page into lines and putting lines back together. */
module LineSplitting {
  import opened CStrings
  import opened Trimming

  /** The lines of a page: a final newline ends the last line, it does not start another. */
  function Lines(s: string): seq<string>
    decreases |s|
  {
    if s == "" then []
    else
      var k := IndexOf(s, '\n');
      if k == |s| then [s] else [s[..k]] + Lines(s[k + 1..])
  }

  function Unlines(xs: seq<string>): string {
    if xs == [] then "" else xs[0] + "\n" + Unlines(xs[1..])
  }

  function NonEmpty(xs: seq<string>): seq<string> {
    if xs == [] then []
    else if xs[0] == "" then NonEmpty(xs[1..])
    else [xs[0]] + NonEmpty(xs[1..])
  }

  /** The trimmed, nonempty lines of a page. */
  function ContentLines(s: string): seq<string> {
    NonEmpty(TrimAll(Lines(s)))
  }

  /** A page that is empty or whose last line is ended. */
  predicate Ended(s: string) {
    s == "" || s[|s| - 1] == '\n'
  }

  ghost predicate OneLiners(xs: seq<string>) {
    forall x | x in xs :: '\n' !in x
  }

  // ----- nothing is lost -----

  lemma {:induction false} LinesCons(x: string, rest: string)
    requires '\n' !in x
    ensures Lines(x + "\n" + rest) == [x] + Lines(rest)
  {
    var s := x + "\n" + rest;
    IndexOfUnique(s, '\n', |x|);
    assert s[..|x|] == x && s[|x| + 1..] == rest;
  }

  lemma {:induction false} LinesLast(x: string)
    requires '\n' !in x && x != ""
    ensures Lines(x) == [x]
  {
    IndexOfUnique(x, '\n', |x|);
  }

  /** Every sequence of lines is read back from its page. */
  lemma {:induction false} LinesOfUnlines(xs: seq<string>, last: string)
    requires OneLiners(xs) && '\n' !in last
    ensures Lines(Unlines(xs) + last) == if last == "" then xs else xs + [last]
  {
    if xs == [] {
      assert Unlines(xs) + last == last;
      if last != "" { LinesLast(last); }
    } else {
      var x, ys := xs[0], xs[1..];
      assert x in xs && xs == [x] + ys && forall y | y in ys :: y in xs;
      UnlinesCons(x, ys);
      Assoc(x + "\n", Unlines(ys), last);
      LinesCons(x, Unlines(ys) + last);
      LinesOfUnlines(ys, last);
    }
  }

  lemma UnlinesCons(x: string, xs: seq<string>)
    ensures Unlines([x] + xs) == x + "\n" + Unlines(xs)
  {
    assert ([x] + xs)[1..] == xs;
  }

  lemma EndedBehind(x: string, t: string)
    ensures Ended(x + "\n" + t) <==> Ended(t)
  {
    var s := x + "\n" + t;
    assert s[|s| - 1] == if t == "" then '\n' else t[|t| - 1];
  }

  /** A page with a newline in it: its first line, and the page behind that. */
  lemma CutLine(s: string) returns (x: string, t: string)
    requires '\n' in s
    ensures '\n' !in x && s == x + "\n" + t && |t| < |s|
  {
    var k := IndexOf(s, '\n');
    x, t := s[..k], s[k + 1..];
  }

  /** The pieces of any page, rejoined with newlines, give the page: with the final newline
      exactly when the page has one. */
  lemma {:induction false} UnlinesOfLines(s: string)
    ensures OneLiners(Lines(s))
    ensures Ended(s) ==> Unlines(Lines(s)) == s
    ensures !Ended(s) ==> Unlines(Lines(s)) == s + "\n"
    decreases |s|
  {
    if s == "" {
    } else if '\n' !in s {
      LinesLast(s);
      UnlinesCons(s, []);
    } else {
      var x, t := CutLine(s);
      UnlinesOfLines(t);
      LinesCons(x, t);
      UnlinesCons(x, Lines(t));
      EndedBehind(x, t);
      Assoc(x + "\n", t, "\n");
    }
  }

  lemma FirstLine(a: string) returns (x: string, t: string)
    requires a != "" && Ended(a)
    ensures a == x + "\n" + t && '\n' !in x && Ended(t)
  {
    var k := IndexOf(a, '\n');
    assert k < |a|;
    x, t := a[..k], a[k + 1..];
    assert t != "" ==> t[|t| - 1] == a[|a| - 1];
  }

  lemma {:induction false} LinesConcat(a: string, b: string)
    requires Ended(a)
    ensures Lines(a + b) == Lines(a) + Lines(b)
    decreases |a|
  {
    if a == "" {
      assert a + b == b;
    } else {
      var x, t := FirstLine(a);
      LinesConcat(t, b);
      LinesCons(x, t);
      LinesCons(x, t + b);
      Assoc(x + "\n", t, b);
      Assoc([x], Lines(t), Lines(b));
    }
  }

  lemma {:induction false} NonEmptyConcat(xs: seq<string>, ys: seq<string>)
    ensures NonEmpty(xs + ys) == NonEmpty(xs) + NonEmpty(ys)
  {
    if xs == [] {
      assert xs + ys == ys;
    } else {
      assert (xs + ys)[1..] == xs[1..] + ys;
      NonEmptyConcat(xs[1..], ys);
    }
  }

  /** Dropping the empty lines is a filter: with `NonEmptyConcat` this says what it does to every list. */
  lemma NonEmptyOne(x: string)
    ensures x == "" ==> NonEmpty([x]) == []
    ensures x != "" ==> NonEmpty([x]) == [x]
  {
    assert [x][1..] == [];
  }

  lemma ContentLinesConcat(a: string, b: string)
    requires Ended(a)
    ensures ContentLines(a + b) == ContentLines(a) + ContentLines(b)
  {
    LinesConcat(a, b);
    TrimAllConcat(Lines(a), Lines(b));
    NonEmptyConcat(TrimAll(Lines(a)), TrimAll(Lines(b)));
  }

  /** A content line is what a configuration or a cleaned page is made of. */
  predicate IsContentLine(x: string) {
    x != "" && IsTrimmed(x) && '\n' !in x && IsText(x)
  }

  lemma {:induction false} NonEmptyMembers(xs: seq<string>)
    ensures forall x :: x in NonEmpty(xs) <==> x in xs && x != ""
  {
    if xs != [] {
      NonEmptyMembers(xs[1..]);
      assert forall x :: x in xs <==> x == xs[0] || x in xs[1..];
    }
  }

  lemma {:induction false} LinesAreText(s: string)
    requires IsText(s)
    ensures forall x | x in Lines(s) :: IsText(x)
    decreases |s|
  {
    if s != "" {
      var k := IndexOf(s, '\n');
      if k < |s| { LinesAreText(s[k + 1..]); }
    }
  }

  lemma ContentLinesAreContent(s: string)
    requires IsText(s)
    ensures forall x | x in ContentLines(s) :: IsContentLine(x)
  {
    UnlinesOfLines(s);
    LinesAreText(s);
    var raw := Lines(s);
    NonEmptyMembers(TrimAll(raw));
    forall x | x in ContentLines(s) ensures IsContentLine(x) {
      var i :| 0 <= i < |raw| && TrimAll(raw)[i] == x;
      assert raw[i] in raw;
      var p, q := TrimmedParts(raw[i]);
      TrimmedMembers(raw[i]);
    }
  }

  lemma {:induction false} NonEmptyOfContent(xs: seq<string>)
    requires forall x | x in xs :: IsContentLine(x)
    ensures NonEmpty(TrimAll(xs)) == xs
  {
    if xs != [] {
      assert xs[0] in xs;
      TrimmedOfTrimmed(xs[0]);
      assert TrimAll(xs)[1..] == TrimAll(xs[1..]);
      NonEmptyOfContent(xs[1..]);
    }
  }

  /** A page printed from content lines holds exactly these lines. */
  lemma ContentLinesOfUnlines(xs: seq<string>)
    requires forall x | x in xs :: IsContentLine(x)
    ensures ContentLines(Unlines(xs)) == xs == Lines(Unlines(xs))
  {
    LinesOfUnlines(xs, "");
    assert Unlines(xs) + "" == Unlines(xs);
    NonEmptyOfContent(xs);
  }

  /** What `clear_empty_lines` makes of a page. */
  function Cleared(s: string): string {
    Unlines(ContentLines(s))
  }

  /** Clearing is idempotent. Every line of a cleared page is ended, and its lines are exactly the
      trimmed, nonempty lines of the page it was made from. */
  lemma ClearedLines(s: string)
    requires IsText(s)
    ensures Cleared(Cleared(s)) == Cleared(s)
    ensures Ended(Cleared(s)) && Lines(Cleared(s)) == NonEmpty(TrimAll(Lines(s)))
  {
    ContentLinesAreContent(s);
    ContentLinesOfUnlines(ContentLines(s));
    UnlinesEnded(ContentLines(s));
  }

  lemma {:induction false} UnlinesEnded(xs: seq<string>)
    ensures Ended(Unlines(xs))
  {
    if xs != [] {
      UnlinesEnded(xs[1..]);
      EndedBehind(xs[0], Unlines(xs[1..]));
    }
  }

  // ----- the algorithms -----

  /** Past the next newline, or at the end of the text. */
  method EndLine(buf: array<char>, str: nat, ghost s: string) returns (q: nat)
    requires Holds(buf[..], str, s)
    ensures q == str + (if IndexOf(s, '\n') < |s| then IndexOf(s, '\n') + 1 else |s|)
  {
    var r := str;
    while buf[r] != NUL && buf[r] != '\n'
      invariant str <= r <= str + |s| && Holds(buf[..], r, s[r - str..])
      invariant forall i | 0 <= i < r - str :: s[i] != '\n'
      decreases str + |s| - r
    {
      HoldsSuffix(buf[..], str, s, r - str);
      HoldsSuffix(buf[..], str, s, r - str + 1);
      r := r + 1;
    }
    IndexOfUnique(s, '\n', r - str);
    q := if buf[r] != NUL then r + 1 else r;
  }

  /** Takes the next line off a nonempty text. The newline is overwritten with NUL while the
      line is copied and put back afterwards, so the buffer is as it was. */
  method ExtractLine(buf: array<char>, line: nat, ghost s: string)
    returns (sline: string, next: nat, ghost rest: string)
    requires Holds(buf[..], line, s) && s != ""
    modifies buf
    ensures buf[..] == old(buf[..])
    ensures line < next <= line + |s| && rest == s[next - line..] && Holds(buf[..], next, rest)
    ensures Lines(s) == [sline] + Lines(rest) && IsText(sline)
  {
    var end := EndLine(buf, line, s);
    ghost var k := IndexOf(s, '\n');
    HoldsAt(buf[..], line, s);
    HoldsSuffix(buf[..], line, s, end - line);
    rest := s[end - line..];
    end := end - 1;
    var c := buf[end];
    assert c == s[end - line];
    if c == '\n' {
      sline := CopyUntil(buf, line, end, s);
    } else {
      sline := FromBuffer(buf, line, s);
      assert s[..k] == s;
    }
    next := end + 1;
  }

  method ToNontrimmedLines(page: string) returns (list: seq<string>)
    requires IsText(page)
    ensures list == Lines(page)
  {
    var buf := ToBuffer(page);
    var tmp: nat := 0;
    ghost var rest := page;
    list := [];
    while buf[tmp] != NUL
      invariant Holds(buf[..], tmp, rest)
      invariant list + Lines(rest) == Lines(page)
      decreases |rest|
    {
      var line;
      line, tmp, rest := ExtractLine(buf, tmp, rest);
      list := list + [line];
    }
  }

  method ToLines(page: string) returns (list: seq<string>)
    requires IsText(page)
    ensures list == TrimAll(Lines(page))
  {
    var buf := ToBuffer(page);
    var tmp: nat := 0;
    ghost var rest := page;
    list := [];
    while buf[tmp] != NUL
      invariant Holds(buf[..], tmp, rest)
      invariant list + TrimAll(Lines(rest)) == TrimAll(Lines(page))
      decreases |rest|
    {
      ghost var s := rest;
      var line;
      line, tmp, rest := ExtractLine(buf, tmp, rest);
      TrimStep(s, line, rest);
      line := TrimString(line);
      Regroup(list, line, TrimAll(Lines(rest)));
      list := list + [line];
    }
  }

  method ToNoEmptyLines(page: string) returns (list: seq<string>)
    requires IsText(page)
    ensures list == NonEmpty(TrimAll(Lines(page)))
  {
    var buf := ToBuffer(page);
    var tmp: nat := 0;
    ghost var rest := page;
    list := [];
    while buf[tmp] != NUL
      invariant Holds(buf[..], tmp, rest)
      invariant list + ContentLines(rest) == ContentLines(page)
      decreases |rest|
    {
      ghost var s := rest;
      var line;
      line, tmp, rest := ExtractLine(buf, tmp, rest);
      TrimStep(s, line, rest);
      line := TrimString(line);
      if |line| != 0 {
        list := list + [line];
      }
    }
  }

  lemma TrimStep(s: string, x: string, rest: string)
    requires Lines(s) == [x] + Lines(rest)
    ensures TrimAll(Lines(s)) == [Trimmed(x)] + TrimAll(Lines(rest))
    ensures ContentLines(s) == if Trimmed(x) == "" then ContentLines(rest) else [Trimmed(x)] + ContentLines(rest)
  {
    TrimAllConcat([x], Lines(rest));
    assert TrimAll([x]) == [Trimmed(x)];
    assert TrimAll(Lines(s))[1..] == TrimAll(Lines(rest));
  }

  /** `empty_line`. */
  method EmptyLine(buf: array<char>, ghost s: string) returns (empty: bool)
    requires Holds(buf[..], 0, s)
    ensures empty <==> Blank(s)
  {
    var tmp := SkipWhite(buf, 0, s);
    empty := buf[tmp] == '\n' || buf[tmp] == NUL;
    assert Blank(s) ==> tmp == |s|;
  }

  method ClearEmptyLines(interpResult: string) returns (result: string)
    requires IsText(interpResult)
    ensures Lines(result) == NonEmpty(TrimAll(Lines(interpResult)))
    ensures result == "" || result[|result| - 1] == '\n'
    ensures result == Cleared(interpResult)
  {
    var lines := ToLines(interpResult);
    result := "";
    for it := 0 to |lines|
      invariant result == Unlines(NonEmpty(lines[..it]))
    {
      var line := lines[it];
      assert lines[..it + 1] == lines[..it] + [line];
      NonEmptyConcat(lines[..it], [line]);
      LinesAreText(interpResult);
      assert Lines(interpResult)[it] in Lines(interpResult);
      TrimmedMembers(Lines(interpResult)[it]);
      TrimIdempotent(Lines(interpResult)[it]);
      var buf := ToBuffer(line);
      var empty := EmptyLine(buf, line);
      TrimmedBlank(line);
      if empty {
        assert NonEmpty([line]) == [];
        assert NonEmpty(lines[..it + 1]) == NonEmpty(lines[..it]);
        continue;
      }
      TrimmedAtBothEnds(line);
      EndTrimmedVisible(line);
      var _ := TrimEnd(buf, line);
      line := FromBuffer(buf, 0, line);
      ghost var kept := NonEmpty(lines[..it]);
      assert NonEmpty([line]) == [line];
      UnlinesSnoc(kept, line);
      result := result + line + "\n";
    }
    assert lines[..|lines|] == lines;
    ClearedLines(interpResult);
  }

  lemma {:induction false} UnlinesSnoc(xs: seq<string>, x: string)
    ensures Unlines(xs + [x]) == Unlines(xs) + x + "\n"
  {
    if xs == [] {
      assert xs + [x] == [x];
      assert Unlines([x]) == x + "\n" + Unlines([]);
    } else {
      assert (xs + [x])[1..] == xs[1..] + [x];
      UnlinesSnoc(xs[1..], x);
    }
  }
}

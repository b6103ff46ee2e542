/** Splitting a text at a delimiter, item lists, tokens, and joining items again. */
module ItemLists {
  import opened CStrings
  import opened Trimming

  // ----- splitting once -----

  /** The two parts a text is split into. */
  datatype Split = Split(head: string, rest: string)

  /** Around the first `c`; everything is in front when there is none. */
  function Cut(s: string, c: char): (r: Split)
    ensures c !in r.head
    ensures if c in s then s == r.head + [c] + r.rest else r == Split(s, "")
  {
    var k := IndexOf(s, c);
    if k == |s| then Split(s, "") else Split(s[..k], s[k + 1..])
  }

  /** What `split_string` makes of a text: it trims, then cuts at the first delimiter;
      the blank stands for any run of whitespace. */
  function SplitPair(s: string, c: char): (r: Split)
    ensures s != "" ==> |r.rest| < |s|
  {
    var t := Trimmed(s);
    if c == ' ' then
      var k := LeadingInk(t);
      assert t != "" ==> !IsSpace(t[0]) by { var p, q := TrimmedParts(s); }
      Split(t[..k], TrimLeft(t[k..]))
    else Cut(t, c)
  }

  /** Returns the two tokens; `accessor0` is what the accessor holds before the call. */
  method SplitString(data: string, accessor0: string, c: char) returns (name: string, accessor: string)
    requires IsText(data) && c != NUL
    ensures c != ' ' ==> c !in name
    ensures c != ' ' && c in Trimmed(data) ==> Trimmed(data) == name + [c] + accessor
    ensures c != ' ' && c !in Trimmed(data) ==> name == Trimmed(data) && accessor == ""
    ensures c == ' ' ==> forall i | 0 <= i < |name| :: !IsSpace(name[i])
    ensures c == ' ' ==> accessor == "" || !IsSpace(accessor[0])
    ensures c == ' ' ==> exists w ::
      Blank(w) && Trimmed(data) == name + w + accessor && (w == "" ==> accessor == "")
    ensures name == SplitPair(data, c).head && accessor == SplitPair(data, c).rest
    ensures IsText(name) && IsText(accessor)
  {
    var tmp := ToBuffer(data);
    Trim(tmp, data);
    ghost var t := Trimmed(data);
    if c == ' ' {
      ghost var p, q := TrimmedParts(data);
      name, accessor := SplitAtWhite(tmp, accessor0, t);
    } else {
      name, accessor := SplitAtChar(tmp, c, t);
    }
    SplitPairIsText(data, c);
    if c == ' ' { var w := WordParts(data); }
  }

  /** At the blank: the first word, the whitespace behind it, and the rest. */
  lemma WordParts(s: string) returns (w: string)
    ensures var Split(name, rest) := SplitPair(s, ' ');
      && Blank(w) && Trimmed(s) == name + w + rest && (w == "" ==> rest == "")
      && (forall i | 0 <= i < |name| :: !IsSpace(name[i])) && (rest == "" || !IsSpace(rest[0]))
  {
    var t := Trimmed(s);
    var k := LeadingInk(t);
    var u := t[k..];
    InkEnds(t, k);
    w := BlankFront(u);
    Assoc(t[..k], w, TrimLeft(u));
  }

  lemma InkEnds(w: string, k: nat)
    requires k == LeadingInk(w)
    ensures forall i | 0 <= i < k :: !IsSpace(w[..k][i])
    ensures w[k..] == "" || IsSpace(w[k..][0])
    ensures w == w[..k] + w[k..]
  {
    assert k < |w| ==> w[k..][0] == w[k];
  }

  lemma BlankFront(u: string) returns (w: string)
    ensures Blank(w) && u == w + TrimLeft(u) && (TrimLeft(u) == "" || !IsSpace(TrimLeft(u)[0]))
    ensures u != "" && IsSpace(u[0]) ==> w != ""
  {
    w := u[..LeadingBlanks(u)];
  }

  lemma SplitPairIsText(s: string, c: char)
    requires IsText(s)
    ensures IsText(SplitPair(s, c).head) && IsText(SplitPair(s, c).rest)
  {
    TrimmedMembers(s);
  }

  /** The branch of `split_string` for the blank. */
  method SplitAtWhite(tmp: array<char>, accessor0: string, ghost t: string)
    returns (name: string, accessor: string)
    requires Holds(tmp[..], 0, t) && IsTrimmed(t)
    modifies tmp
    ensures name == t[..LeadingInk(t)] && accessor == TrimLeft(t[LeadingInk(t)..])
  {
    accessor := accessor0;
    var end := SkipToWhite(tmp, 0, t);
    if tmp[end] != NUL {
      name := CopyUntil(tmp, 0, end, t);
      HoldsSuffix(tmp[..], 0, t, end + 1);
      SkipSplit(t, end);
      ghost var behind, rest := t[end + 1..], TrimLeft(t[end..]);
      var next := SkipWhite(tmp, end + 1, behind);
      assert Holds(tmp[..], next, rest);
      if tmp[next] != NUL {
        accessor := FromBuffer(tmp, next, rest);
      }
    } else {
      name := FromBuffer(tmp, 0, t);
      accessor := "";
      assert t[..end] == t;
    }
  }

  /** The branch of `split_string` for any other delimiter. */
  method SplitAtChar(tmp: array<char>, c: char, ghost t: string)
    returns (name: string, accessor: string)
    requires Holds(tmp[..], 0, t) && c != NUL
    modifies tmp
    ensures name == Cut(t, c).head && accessor == Cut(t, c).rest
  {
    var next := FindChar(tmp, 0, c, t);
    if next == Null {
      name := FromBuffer(tmp, 0, t);
      accessor := "";
    } else {
      var end := next.at;
      name := CopyUntil(tmp, 0, end, t);
      HoldsSuffix(tmp[..], 0, t, end + 1);
      if tmp[end + 1] != NUL {
        accessor := FromBuffer(tmp, end + 1, t[end + 1..]);
      } else {
        accessor := "";
      }
    }
  }

  /** Behind the first word of a trimmed text there is another word, or nothing at all. */
  lemma SkipSplit(t: string, k: nat)
    requires IsTrimmed(t) && k == LeadingInk(t) < |t|
    ensures TrimLeft(t[k..]) == TrimLeft(t[k + 1..]) != ""
  {
    var u := t[k + 1..];
    var m := LeadingBlanks(u);
    assert m < |u| by {
      assert t[k] != t[|t| - 1] == u[|u| - 1];
    }
    LeadingBlanksUnique(t[k..], m + 1);
  }

  // ----- item lists -----

  /** What `to_items` makes of a text. */
  function ItemsOf(s: string, c: char): seq<string>
    decreases |s|
  {
    if s == "" then []
    else
      var Split(name, rest) := SplitPair(s, c);
      [Trimmed(name)] + ItemsOf(rest, c)
  }

  lemma ItemsUnfold(s: string, c: char)
    requires s != ""
    ensures var Split(name, rest) := SplitPair(s, c);
      |rest| < |s| && ItemsOf(s, c) == [Trimmed(name)] + ItemsOf(rest, c)
  {}

  method ToItems(tokenStr: string, itemDel: char) returns (slist: seq<string>)
    requires IsText(tokenStr) && itemDel != NUL
    ensures slist == ItemsOf(tokenStr, itemDel)
  {
    var rest := tokenStr;
    slist := [];
    while |rest| != 0
      invariant IsText(rest)
      invariant slist + ItemsOf(rest, itemDel) == ItemsOf(tokenStr, itemDel)
      decreases |rest|
    {
      ItemsUnfold(rest, itemDel);
      var sToken;
      sToken, rest := SplitString(rest, rest, itemDel);
      sToken := TrimString(sToken);
      Regroup(slist, sToken, ItemsOf(rest, itemDel));
      slist := slist + [sToken];
    }
  }
}

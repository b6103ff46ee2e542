/** Turning the inner double quotes of each line into single quotes. */
module Quotes {
  import opened CStrings

  ghost predicate SameLine(s: seq<char>, j: int, k: int)
    requires 0 <= j && k < |s|
  {
    forall p | j <= p <= k :: s[p] != '\n'
  }

  /** `i` is strictly between two double quotes of its line. */
  ghost predicate Inner(s: seq<char>, i: int) {
    exists j, k | 0 <= j < i < k < |s| :: s[j] == '\"' && s[k] == '\"' && SameLine(s, j, k)
  }

  ghost function FactoredAt(s: seq<char>, i: nat): char
    requires i < |s|
  {
    if s[i] == '\"' && Inner(s, i) then '\'' else s[i]
  }

  /** The text with exactly the inner double quotes of each line turned into single quotes. */
  ghost function Factored(s: seq<char>): (r: seq<char>)
    ensures |r| == |s| && forall i: nat | i < |s| :: r[i] == FactoredAt(s, i)
  {
    seq(|s|, i requires 0 <= i < |s| => FactoredAt(s, i))
  }

  /** Which characters change, and into what: the double quotes with another one in front of them and
      another one behind them on their line. */
  lemma FactoredEach(s: seq<char>, i: nat)
    requires i < |s|
    ensures var inner := s[i] == '\"' && exists j, k | 0 <= j < i < k < |s| ::
        s[j] == '\"' && s[k] == '\"' && '\n' !in s[j..k];
      (inner ==> Factored(s)[i] == '\'') && (!inner ==> Factored(s)[i] == s[i])
  {
    forall j, k | 0 <= j < i < k < |s| && s[j] == '\"' && s[k] == '\"'
      ensures SameLine(s, j, k) <==> '\n' !in s[j..k]
    {
      SameLineIs(s, j, k);
    }
  }

  lemma SameLineIs(s: seq<char>, j: int, k: int)
    requires 0 <= j <= k < |s| && s[k] != '\n'
    ensures SameLine(s, j, k) <==> '\n' !in s[j..k]
  {
    assert forall p | j <= p < k :: s[p] == s[j..k][p - j];
  }

  /** A line keeps at most its first and its last double quote. */
  lemma AtMostTwoQuotes(s: seq<char>, i: nat, j: nat, k: nat)
    requires i < j < k < |s| && SameLine(Factored(s), i, k)
    ensures !(Factored(s)[i] == '\"' && Factored(s)[j] == '\"' && Factored(s)[k] == '\"')
  {
    var r := Factored(s);
    if r[i] == '\"' && r[k] == '\"' {
      assert SameLine(s, i, k) by {
        forall p | i <= p <= k ensures s[p] != '\n' { assert r[p] != '\n'; }
      }
      assert Inner(s, j);
    }
  }

  /** Doing it twice is doing it once. */
  lemma FactoredIdempotent(s: seq<char>)
    ensures Factored(Factored(s)) == Factored(s)
  {
    var r := Factored(s);
    forall i | 0 <= i < |r| && r[i] == '\"' ensures !Inner(r, i) {
      if Inner(r, i) {
        var j, k :| 0 <= j < i < k < |r| && r[j] == '\"' && r[k] == '\"' && SameLine(r, j, k);
        AtMostTwoQuotes(s, j, i, k);
      }
    }
  }

  /** Of the quotes of `text[a..e]`, the line that starts at `a`. */
  ghost predicate Between(text: seq<char>, a: int, e: int, i: int)
    requires 0 <= a && e <= |text|
  {
    exists j, k | a <= j < i < k < e :: text[j] == '\"' && text[k] == '\"'
  }

  /** What the line `text[a..e]` becomes at `i`. */
  ghost predicate LineChar(text: seq<char>, text': seq<char>, a: int, e: int, i: int)
    requires 0 <= a <= i < e <= |text| == |text'|
  {
    text'[i] == if text[i] == '\"' && Between(text, a, e, i) then '\'' else text[i]
  }

  /** What the text becomes when that line is factored. */
  ghost predicate LineFactored(text: seq<char>, text': seq<char>, a: int, e: int) {
    && 0 <= a <= e <= |text| == |text'|
    && (forall i | 0 <= i < |text| && !(a <= i < e) :: text'[i] == text[i])
    && forall i | a <= i < e :: LineChar(text, text', a, e, i)
  }

  /** The same, of one line. */
  lemma LineFactoredEach(text: seq<char>, text': seq<char>, a: nat, e: nat, i: nat)
    requires LineFactored(text, text', a, e) && a <= i < e
    ensures var inner := text[i] == '\"' && '\"' in text[a..i] && '\"' in text[i + 1..e];
      (inner ==> text'[i] == '\'') && (!inner ==> text'[i] == text[i])
  {
    assert LineChar(text, text', a, e, i);
    forall j | a <= j < i ensures text[a..i][j - a] == text[j] {}
    forall k | i < k < e ensures text[i + 1..e][k - i - 1] == text[k] {}
    if '\"' in text[a..i] && '\"' in text[i + 1..e] {
      var j :| 0 <= j < i - a && text[a..i][j] == '\"';
      var k :| 0 <= k < e - i - 1 && text[i + 1..e][k] == '\"';
      assert text[a + j] == '\"' && text[i + 1 + k] == '\"';
    }
  }

  /** The last double quote in front of `end`; `str` or less when there is none behind `str`. */
  method LastQuote(buf: array<char>, str: nat, end: nat) returns (lastQ: int)
    requires str <= end <= buf.Length
    ensures str - 1 <= lastQ < end && (lastQ > str ==> buf[lastQ] == '\"')
    ensures forall q | lastQ < q < end && q > str :: buf[q] != '\"'
  {
    lastQ := end - 1;
    while lastQ > str && buf[lastQ] != '\"'
      invariant str - 1 <= lastQ < end
      invariant forall q | lastQ < q < end && q > str :: buf[q] != '\"'
    {
      lastQ := lastQ - 1;
    }
  }

  /** Turns the double quotes strictly between two places into single ones. */
  method SoftenQuotes(buf: array<char>, firstQ: nat, lastQ: nat)
    requires firstQ <= lastQ < buf.Length
    modifies buf
    ensures forall q | 0 <= q < buf.Length ::
      buf[q] == if firstQ < q < lastQ && old(buf[q]) == '\"' then '\'' else old(buf[q])
  {
    var tmp := firstQ + 1;
    while tmp < lastQ
      invariant firstQ < tmp && (tmp <= lastQ || tmp == firstQ + 1)
      invariant forall q | 0 <= q < buf.Length ::
        buf[q] == if firstQ < q < tmp && q < lastQ && old(buf[q]) == '\"' then '\'' else old(buf[q])
    {
      if buf[tmp] == '\"' { buf[tmp] := '\''; }
      tmp := tmp + 1;
    }
  }

  /** The part of `line_factor_quotes` behind the search for the end of the line. */
  method FactorInner(buf: array<char>, str: nat, end: nat)
    requires str <= end <= buf.Length
    modifies buf
    ensures LineFactored(old(buf[..]), buf[..], str, end)
  {
    ghost var text := buf[..];
    var lastQ := LastQuote(buf, str, end);
    if lastQ > str {
      var tmp := str;
      while buf[tmp] != '\"'
        invariant str <= tmp <= lastQ && forall q | str <= q < tmp :: buf[q] != '\"'
        decreases lastQ - tmp
      {
        tmp := tmp + 1;
      }
      QuotesBetween(text, str, end, tmp, lastQ);
      SoftenQuotes(buf, tmp, lastQ);
    } else {
      FewQuotes(text, str, end);
    }
  }

  /** The NUL behind the line, if there is one, and the newline put back there make no difference. */
  lemma NewlineRestored(text: seq<char>, line: seq<char>, line': seq<char>, text': seq<char>, a: nat, e: nat)
    requires LineFactored(line, line', a, e) && e < |text| == |line| == |text'| && text'[e] == text[e]
    requires forall i | 0 <= i < |text| && i != e :: line[i] == text[i] && text'[i] == line'[i]
    ensures LineFactored(text, text', a, e)
  {
    SameBetweenAll(text, line, a, e);
    forall i | a <= i < e ensures LineChar(text, text', a, e, i) {
      assert LineChar(line, line', a, e, i);
    }
  }

  /** `line_factor_quotes`: works on the line at `str` and returns where the next line starts,
      or null at the end of the text. The newline is a NUL for a moment. */
  method LineFactorQuotes(buf: array<char>, str: nat, ghost n: nat) returns (next: Pointer)
    requires Terminated(buf[..], str, n)
    modifies buf
    ensures var e := PlaceOf(old(buf[..]), '\n', str, n);
      && LineFactored(old(buf[..]), buf[..], str, e)
      && next == if e + 1 < n then To(e + 1) else Null
  {
    ghost var text := buf[..];
    ghost var e := PlaceOf(text, '\n', str, n);
    var end := str;
    var c := buf[end];
    while c != NUL
      invariant str <= end <= e && c == buf[end] && buf[..] == text
      decreases n - end
    {
      if c == '\n' { break; }
      end := end + 1;
      c := buf[end];
    }
    assert end == e;
    var endState := c;
    if c == '\n' { buf[end] := NUL; }
    ghost var line := buf[..];
    assert line == text || line == text[end := NUL];
    FactorInner(buf, str, end);
    ghost var line' := buf[..];
    if endState != NUL {
      buf[end] := '\n';
      end := end + 1;
    }
    assert buf[..] == line' || buf[..] == line'[e := '\n'];
    NewlineRestored(text, line, line', buf[..], str, e);
    next := if buf[end] == NUL then Null else To(end);
  }

  lemma QuotesBetween(text: seq<char>, a: nat, e: nat, f: nat, l: nat)
    requires a <= f <= l < e <= |text| && text[f] == '\"' && text[l] == '\"'
    requires forall q | a <= q < f :: text[q] != '\"'
    requires forall q | l < q < e :: text[q] != '\"'
    ensures forall i | a <= i < e :: Between(text, a, e, i) <==> f < i < l
  {}

  lemma FewQuotes(text: seq<char>, a: nat, e: nat)
    requires a <= e <= |text| && forall q | a < q < e :: text[q] != '\"'
    ensures forall i | a <= i < e :: !Between(text, a, e, i)
  {}

  /** The quotes that count for a place are those of its own line. */
  lemma InnerIsBetween(s: seq<char>, a: nat, e: nat, i: nat)
    requires a <= i < e <= |s|
    requires (a == 0 || s[a - 1] == '\n') && (e == |s| || s[e] == '\n')
    requires forall p | a <= p < e :: s[p] != '\n'
    ensures Inner(s, i) <==> Between(s, a, e, i)
  {
    if Inner(s, i) {
      var j, k :| 0 <= j < i < k < |s| && s[j] == '\"' && s[k] == '\"' && SameLine(s, j, k);
      InsideLine(s, a, e, j, i, k);
    }
    if Between(s, a, e, i) {
      var j, k :| a <= j < i < k < e && s[j] == '\"' && s[k] == '\"';
      assert SameLine(s, j, k);
    }
  }

  lemma InsideLine(s: seq<char>, a: nat, e: nat, j: nat, i: nat, k: nat)
    requires a <= i < e <= |s| && j < i < k < |s| && SameLine(s, j, k)
    requires (a == 0 || s[a - 1] == '\n') && (e == |s| || s[e] == '\n')
    ensures a <= j && k < e
  {}

  /** `factor_quotes`, on the buffer that holds the string. */
  method FactorQuotes(jstring: array<char>, ghost s: string)
    requires Holds(jstring[..], 0, s)
    modifies jstring
    ensures Holds(jstring[..], 0, Factored(s))
    ensures forall i | |s| <= i < jstring.Length :: jstring[i] == old(jstring[i])
  {
    ghost var n, was := |s|, jstring[..];
    HoldsAt(was, 0, s);
    var tmp := To(0);
    ghost var at := 0;
    while tmp.To?
      invariant at <= n && (tmp.To? ==> tmp.at == at) && (tmp.Null? ==> at == n)
      invariant Progress(was, jstring[..], s, at)
      decreases n - at, tmp.To?
    {
      tmp, at := NextLine(jstring, tmp.at, was, s);
    }
    AllDone(was, jstring[..], s);
  }

  /** One round of that loop. */
  method NextLine(jstring: array<char>, tmp: nat, ghost was: seq<char>, ghost s: string)
    returns (next: Pointer, ghost at: nat)
    requires Progress(was, jstring[..], s, tmp)
    modifies jstring
    ensures Progress(was, jstring[..], s, at) && (next.To? ==> tmp < at == next.at) && (next.Null? ==> at == |s|)
  {
    ghost var before, n := jstring[..], |s|;
    RestIsText(was, before, s, tmp);
    next := LineFactorQuotes(jstring, tmp, n);
    at := if next.To? then next.at else n;
    ProgressStep(was, before, jstring[..], s, tmp, PlaceOf(before, '\n', tmp, n), at);
  }

  ghost predicate Done(text: seq<char>, s: string, i: nat) {
    i < |s| && i < |text| && text[i] == FactoredAt(s, i)
  }

  /** The lines in front of `a` are done, all else is as it was. */
  ghost predicate Progress(was: seq<char>, text: seq<char>, s: string, a: nat) {
    && |s| < |text| == |was| && text[|s|] == NUL && text[|s|..] == was[|s|..] && IsText(s) && a <= |s|
    && (a == 0 || a == |s| || s[a - 1] == '\n')
    && (forall i: nat | i < a :: Done(text, s, i))
    && (forall i | a <= i < |s| :: text[i] == s[i])
  }

  lemma AllDone(was: seq<char>, text: seq<char>, s: string)
    requires Progress(was, text, s, |s|)
    ensures Holds(text, 0, Factored(s)) && |text| == |was|
    ensures forall i | |s| <= i < |text| :: text[i] == was[i]
  {
    var r := Factored(s);
    forall i: nat | i < |r| ensures r[i] != NUL && text[0 + i] == r[i] {
      assert Done(text, s, i);
      assert s[i] in s;
    }
    HoldsIntro(text, 0, r);
    forall i | |s| <= i < |text| ensures text[i] == was[i] {
      assert text[|s|..][i - |s|] == was[|s|..][i - |s|];
    }
  }

  lemma RestIsText(was: seq<char>, text: seq<char>, s: string, a: nat)
    requires Progress(was, text, s, a)
    ensures Terminated(text, a, |s|)
  {
    forall i | a <= i < |s| ensures text[i] != NUL { assert s[i] in s; }
  }

  /** One line further. */
  lemma ProgressStep(was: seq<char>, text: seq<char>, text': seq<char>, s: string, a: nat, e: nat, a': nat)
    requires Progress(was, text, s, a) && e == PlaceOf(text, '\n', a, |s|) && LineFactored(text, text', a, e)
    requires a' == if e + 1 < |s| then e + 1 else |s|
    ensures Progress(was, text', s, a')
  {
    assert text'[|s|..] == text[|s|..];
    forall i: nat | i < a' ensures Done(text', s, i) {
      if i < a {
        assert Done(text, s, i);
      } else if i < e {
        assert LineChar(text, text', a, e, i);
        SameBetween(text, s, a, e, i);
        InnerIsBetween(s, a, e, i);
      }
    }
  }

  lemma SameBetweenAll(text: seq<char>, s: seq<char>, a: nat, e: nat)
    requires a <= e && e <= |s| && e <= |text| && forall q | a <= q < e :: text[q] == s[q]
    ensures forall i | a <= i < e :: Between(text, a, e, i) <==> Between(s, a, e, i)
  {
    forall i | a <= i < e ensures Between(text, a, e, i) <==> Between(s, a, e, i) {
      SameBetween(text, s, a, e, i);
    }
  }

  lemma SameBetween(text: seq<char>, s: seq<char>, a: nat, e: nat, i: nat)
    requires a <= i < e && e <= |s| && e <= |text| && forall q | a <= q < e :: text[q] == s[q]
    ensures Between(text, a, e, i) <==> Between(s, a, e, i)
  {
    if Between(text, a, e, i) {
      var j, k :| a <= j < i < k < e && text[j] == '\"' && text[k] == '\"';
      assert s[j] == '\"' && s[k] == '\"';
    }
    if Between(s, a, e, i) {
      var j, k :| a <= j < i < k < e && s[j] == '\"' && s[k] == '\"';
      assert text[j] == '\"' && text[k] == '\"';
    }
  }
}

/** Fields of a text: extracting what stands between an opening tag and the closing tag that
    belongs to it. */
module Fields {
  import opened CStrings
  import opened Sections
  import opened SectionLaws

  /** Where the content of a section starts: behind the `>` of the opening tag, which may
      come later than the tag that was searched for. */
  function ContentStart(text: seq<char>, b: nat, n: nat): nat
    requires 0 < b <= n <= |text|
  {
    if text[b - 1] == '>' then b else PlaceOf(text, '>', b, n) + 1
  }

  function Stop(e: Pointer, n: nat): nat {
    if e.Null? then n else e.at
  }

  /** The source runs off its text, or asks for too small a buffer, unless the `>` that ends
      the opening tag comes no later than the closing tag. */
  predicate FieldDefined(text: seq<char>, i: nat, n: nat, tags: Tags)
    requires tags.open != "" && i <= n <= |text|
  {
    match SectionOf(text, i, n, tags)
    case NotFound => true
    case Found(b, e, _) =>
      0 < b <= n && (text[b - 1] == '>' || (PlaceOf(text, '>', b, n) < n && PlaceOf(text, '>', b, n) <= Stop(e, n)))
  }

  function FieldOf(text: seq<char>, i: nat, n: nat, tags: Tags): string
    requires tags.open != "" && i <= n <= |text|
  {
    match SectionOf(text, i, n, tags)
    case NotFound => ""
    case Found(b, e, _) =>
      if 0 < b <= n && ContentStart(text, b, n) <= Stop(e, n) <= n
      then text[ContentStart(text, b, n)..Stop(e, n)]
      else ""
  }

  /** `extract_large_field`; the result is a text of its own. */
  method ExtractLargeField(buf: array<char>, begin: nat, pName: string, ePName: string, ghost n: nat)
    returns (buffer: array<char>)
    requires Terminated(buf[..], begin, n)
    requires IsText(pName) && IsText(ePName) && pName != ""
    requires FieldDefined(buf[..], begin, n, Tags(pName, ePName, ""))
    ensures fresh(buffer) && Holds(buffer[..], 0, FieldOf(buf[..], begin, n, Tags(pName, ePName, "")))
  {
    ghost var tags := Tags(pName, ePName, "");
    var section := MarkSection(buf, begin, pName, ePName, n);
    if section.NotFound? {
      buffer := ToBuffer("");
      return;
    }
    SectionInside(buf[..], begin, n, tags);
    var nb := section.begin;
    var ne := nb;
    if section.end.Null? {
      while buf[ne] != NUL
        invariant nb <= ne <= n
        decreases n - ne
      {
        ne := ne + 1;
      }
    } else {
      ne := section.end.at;
    }
    if buf[nb - 1] != '>' {
      while buf[nb] != '>'
        invariant section.begin <= nb <= PlaceOf(buf[..], '>', section.begin, n)
        decreases n - nb
      {
        nb := nb + 1;
      }
      nb := nb + 1;
    }
    assert nb == ContentStart(buf[..], section.begin, n) && ne == Stop(section.end, n);
    buffer := CopySpan(buf, nb, ne);
  }

  /** Copies the characters in front of `ne` to a buffer with room for a terminator. */
  method CopySpan(buf: array<char>, nb0: nat, ne: nat) returns (buffer: array<char>)
    requires nb0 <= ne + 1 && ne <= buf.Length && forall j | nb0 <= j < ne :: buf[j] != NUL
    ensures fresh(buffer) && Holds(buffer[..], 0, if nb0 <= ne then buf[nb0..ne] else "")
  {
    var nb, tmp := nb0, 0;
    buffer := new char[ne - nb + 2](_ => NUL);
    while nb < ne
      invariant nb == nb0 + tmp && (nb <= ne || tmp == 0)
      invariant forall j | 0 <= j < tmp :: buffer[j] == buf[nb0 + j]
    {
      buffer[tmp] := buf[nb];
      tmp, nb := tmp + 1, nb + 1;
    }
    buffer[tmp] := NUL;
    HoldsIntro(buffer[..], 0, if nb0 <= ne then buf[nb0..ne] else "");
  }

  lemma SectionInside(text: seq<char>, i: nat, n: nat, tags: Tags)
    requires tags.open != "" && i <= n <= |text| && SectionOf(text, i, n, tags).Found?
    ensures var r := SectionOf(text, i, n, tags);
      i < r.begin < n && (r.end.To? ==> r.begin <= r.end.at < n)
  {
    if tags.Proper() {
      var f := SectionBegins(text, i, n, tags);
      OpeningFound(text, i, n, tags, f);
      var k := SectionEnds(text, i, n, tags);
    }
  }

  lemma OpeningFound(text: seq<char>, i: nat, n: nat, tags: Tags, f: nat)
    requires tags.Proper() && i <= n <= |text| && f < |Lex(text, i, n, tags)|
    ensures var t := Lex(text, i, n, tags)[f];
      Occurs(t, text, i, n, tags) && i <= t.at && End(t, tags) <= n
  {
    LexSound(text, i, n, tags);
    assert Lex(text, i, n, tags)[f] in Lex(text, i, n, tags);
  }

  lemma ContentStartsAt(text: seq<char>, b: nat, w: nat, n: nat)
    requires 0 < b <= w <= n <= |text| && text[w - 1] == '>' && forall p | b - 1 <= p < w - 1 :: text[p] != '>'
    ensures ContentStart(text, b, n) == w
    ensures text[b - 1] != '>' ==> PlaceOf(text, '>', b, n) == w - 1
  {
    assert b < w ==> text[b - 1] != '>';
  }

  lemma FieldBetween(text: seq<char>, n: nat, tags: Tags, b: nat, w: nat, e: nat)
    requires tags.open != "" && n <= |text| && SectionOf(text, 0, n, tags) == Found(b, To(e), Null)
    requires 0 < b <= w <= e <= n && text[w - 1] == '>' && forall p | b - 1 <= p < w - 1 :: text[p] != '>'
    ensures FieldDefined(text, 0, n, tags) && FieldOf(text, 0, n, tags) == text[w..e]
  {
    ContentStartsAt(text, b, w, n);
  }

  lemma FieldToEnd(text: seq<char>, n: nat, tags: Tags, b: nat, w: nat)
    requires tags.open != "" && n <= |text| && SectionOf(text, 0, n, tags) == Found(b, Null, Null)
    requires 0 < b <= w <= n && text[w - 1] == '>' && forall p | b - 1 <= p < w - 1 :: text[p] != '>'
    ensures FieldDefined(text, 0, n, tags) && FieldOf(text, 0, n, tags) == text[w..n]
  {
    ContentStartsAt(text, b, w, n);
  }

  // ----- the field of any text -----

  /** A text without a section has an empty field. */
  lemma NoSectionNoField(text: seq<char>, i: nat, n: nat, tags: Tags)
    requires tags.open != "" && i <= n <= |text| && SectionOf(text, i, n, tags) == NotFound
    ensures FieldDefined(text, i, n, tags) && FieldOf(text, i, n, tags) == ""
  {}

  /** Otherwise the field goes from behind the first `>` at the end of the opening tag, or behind it, to
      the end of the section; `e` is that end, and `w` is behind that `>`. */
  lemma FieldExactly(text: seq<char>, i: nat, n: nat, tags: Tags, w: nat, e: nat)
    requires tags.open != "" && i <= n <= |text| && SectionOf(text, i, n, tags).Found?
    requires var r := SectionOf(text, i, n, tags);
      && e == (if r.end.To? then r.end.at else n) && r.begin <= w <= n
      && text[w - 1] == '>' && forall p | r.begin - 1 <= p < w - 1 :: text[p] != '>'
    ensures FieldDefined(text, i, n, tags) <==> w <= e + 1
    ensures w <= e ==> e <= n && FieldOf(text, i, n, tags) == text[w..e]
    ensures w > e ==> FieldOf(text, i, n, tags) == ""
  {
    SectionInside(text, i, n, tags);
    ContentStartsAt(text, SectionOf(text, i, n, tags).begin, w, n);
  }

  /** If there is no such `>` the source is not defined. */
  lemma NoFieldWithoutEnd(text: seq<char>, i: nat, n: nat, tags: Tags)
    requires tags.open != "" && i <= n <= |text| && SectionOf(text, i, n, tags).Found?
    requires forall p: nat | SectionOf(text, i, n, tags).begin <= p + 1 && p < n :: text[p] != '>'
    ensures !FieldDefined(text, i, n, tags)
  {
    SectionInside(text, i, n, tags);
  }

  // ----- where the extraction is defined -----

  lemma WholeTagIsDefined(text: seq<char>, i: nat, n: nat, tags: Tags)
    requires tags.open != "" && tags.open[|tags.open| - 1] == '>' && i <= n <= |text|
    ensures FieldDefined(text, i, n, tags)
  {
    var r, k := SectionOf(text, i, n, tags), |tags.open| - 1;
    if r.Found? {
      SectionInside(text, i, n, tags);
      if tags.Proper() {
        var f := SectionBegins(text, i, n, tags);
        OpeningFound(text, i, n, tags, f);
        SpelledAt(text, Lex(text, i, n, tags)[f].at, n, tags.open, k);
      } else {
        SpelledAt(text, i, n, tags.open, k);
      }
    }
  }

  lemma CutTagIsUndefined(tags: Tags)
    requires tags.open != "" && tags.open[|tags.open| - 1] != '>'
    ensures !FieldDefined(tags.open + "a", 0, |tags.open| + 1, tags)
  {
    var text, n := tags.open + "a", |tags.open| + 1;
    SpellsItself(text);
    SpellsParts(text, 0, n, tags.open, "a");
    if tags.Proper() { OpenedSection(text, n, tags); }
  }

  /** The extraction is defined on every text if and only if its opening tag ends with `>`. */
  lemma DefinedForWholeTags(tags: Tags)
    requires tags.open != ""
    ensures tags.open[|tags.open| - 1] == '>'
       <==> forall text: seq<char>, i: nat, n: nat | i <= n <= |text| :: FieldDefined(text, i, n, tags)
  {
    if tags.open[|tags.open| - 1] == '>' {
      forall text: seq<char>, i: nat, n: nat | i <= n <= |text| ensures FieldDefined(text, i, n, tags) {
        WholeTagIsDefined(text, i, n, tags);
      }
    } else {
      CutTagIsUndefined(tags);
      assert |tags.open + "a"| == |tags.open| + 1;
    }
  }

  // ----- fields of a string -----

  /** What `string_extract_field` makes of its arguments. */
  function FieldTags(tag: string): Tags
    requires tag != ""
  {
    Tags(tag, "</" + tag[1..], "")
  }

  function ExtractField(data: string, tag: string): string
    requires tag != ""
  {
    FieldOf(data, 0, |data|, FieldTags(tag))
  }

  lemma SpellsLocal(text: seq<char>, text': seq<char>, i: nat, n: nat, x: string)
    requires n <= |text| && n <= |text'| && forall p | i <= p < n :: text[p] == text'[p]
    ensures Spells(text, i, n, x) <==> Spells(text', i, n, x)
  {
    if i + |x| <= n {
      assert forall j: nat | j < |x| :: Agrees(text, i, x, j) <==> Agrees(text', i, x, j);
    }
  }

  /** A text read in a buffer is read as it is on its own. */
  lemma {:induction false} LexLocal(text: seq<char>, text': seq<char>, i: nat, n: nat, tags: Tags)
    requires tags.Proper() && i <= n <= |text| && n <= |text'| && text[i..n] == text'[i..n]
    ensures Lex(text, i, n, tags) == Lex(text', i, n, tags)
    decreases n - i
  {
    if i < n {
      forall p | i <= p < n ensures text[p] == text'[p] {
        assert text[i..n][p - i] == text'[i..n][p - i];
      }
      SpellsLocal(text, text', i, n, tags.open);
      SpellsLocal(text, text', i, n, tags.close);
      SpellsLocal(text, text', i, n, tags.middle);
      var i' := i + tags.Width(tags.At(text, i, n));
      assert text[i'..n] == text[i..n][i' - i..];
      assert text'[i'..n] == text'[i..n][i' - i..];
      LexLocal(text, text', i', n, tags);
    }
  }

  lemma ContentLocal(text: seq<char>, data: string, b: nat, e: nat)
    requires 0 < b <= |data| <= |text| && text[..|data|] == data
    ensures ContentStart(text, b, |data|) == ContentStart(data, b, |data|)
    ensures PlaceOf(text, '>', b, |data|) == PlaceOf(data, '>', b, |data|) && text[b - 1] == data[b - 1]
    ensures var w := ContentStart(data, b, |data|); w <= e <= |data| ==> text[w..e] == data[w..e]
  {
    forall p | 0 <= p < |data| ensures text[p] == data[p] { assert text[..|data|][p] == data[p]; }
  }

  lemma FieldLocal(text: seq<char>, data: string, tags: Tags)
    requires tags.Proper() && |data| <= |text| && text[..|data|] == data
    ensures FieldOf(text, 0, |data|, tags) == FieldOf(data, 0, |data|, tags)
    ensures FieldDefined(text, 0, |data|, tags) <==> FieldDefined(data, 0, |data|, tags)
  {
    var n := |data|;
    assert text[0..n] == data[0..n];
    LexLocal(text, data, 0, n, tags);
    var r := SectionOf(data, 0, n, tags);
    if r.Found? && 0 < r.begin <= n { ContentLocal(text, data, r.begin, Stop(r.end, n)); }
  }

  /** `string_extract_field`. */
  method StringExtractField(data: string, tag: string) returns (fdata: string)
    requires IsText(data) && IsText(tag) && tag != ""
    requires FieldDefined(data, 0, |data|, FieldTags(tag))
    ensures fdata == ExtractField(data, tag)
  {
    var eTag := "</" + tag[1..];
    var buf := ToBuffer(data);
    HoldsAt(buf[..], 0, data);
    assert buf[..][..|data|] == data;
    FieldLocal(buf[..], data, Tags(tag, eTag, ""));
    var field := ExtractLargeField(buf, 0, tag, eTag, |data|);
    fdata := FromBuffer(field, 0, ExtractField(data, tag));
  }
}

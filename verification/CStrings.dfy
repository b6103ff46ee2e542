/** C strings: NUL-terminated runs of characters inside a buffer, the pointer helpers
    that walk over them, and whitespace trimming in place.

    A `char *` is a buffer together with an index into it. The ghost parameter `s` of a
    method names the text that the pointer denotes on entry. */
module CStrings {

  /** A pointer into a buffer that may be null. */
  datatype Pointer = Null | To(at: nat)

  const NUL: char := '\0'

  /** `isspace` in the "C" locale: blank, \t, \n, \v, \f and \r. */
  predicate IsSpace(c: char) {
    c == ' ' || '\t' <= c <= '\r'
  }

  predicate Blank(s: string) {
    forall i | 0 <= i < |s| :: IsSpace(s[i])
  }

  predicate IsText(s: string) {
    NUL !in s
  }

  /** The pointer `p` into `buf` denotes the C string `s`. */
  ghost predicate Holds(buf: seq<char>, p: nat, s: string)
    decreases |s|
  {
    p < |buf| &&
    if s == "" then buf[p] == NUL
    else buf[p] == s[0] && s[0] != NUL && Holds(buf, p + 1, s[1..])
  }

  lemma {:induction false} HoldsAt(buf: seq<char>, p: nat, s: string)
    requires Holds(buf, p, s)
    ensures p + |s| < |buf| && buf[p + |s|] == NUL
    ensures forall i | 0 <= i < |s| :: s[i] != NUL && buf[p + i] == s[i]
    decreases |s|
  {
    if s != "" {
      HoldsAt(buf, p + 1, s[1..]);
      assert forall i | 1 <= i < |s| :: s[i] == s[1..][i - 1];
    }
  }

  lemma {:induction false} HoldsIntro(buf: seq<char>, p: nat, s: string)
    requires p + |s| < |buf| && buf[p + |s|] == NUL
    requires forall i | 0 <= i < |s| :: s[i] != NUL && buf[p + i] == s[i]
    ensures Holds(buf, p, s)
    decreases |s|
  {
    if s != "" {
      assert forall i | 0 <= i < |s| - 1 :: s[1..][i] == s[i + 1] && buf[p + 1 + i] == buf[p + (i + 1)];
      HoldsIntro(buf, p + 1, s[1..]);
    }
  }

  /** A pointer moved forward inside its string denotes a suffix of it. */
  lemma {:induction false} HoldsSuffix(buf: seq<char>, p: nat, s: string, k: nat)
    requires Holds(buf, p, s) && k <= |s|
    ensures Holds(buf, p + k, s[k..])
    ensures k < |s| ==> p + k < |buf| && buf[p + k] == s[k] != NUL
    decreases k
  {
    if k == 0 {
      assert s[0..] == s;
    } else {
      HoldsSuffix(buf, p + 1, s[1..], k - 1);
      assert s[1..][k - 1..] == s[k..];
    }
  }

  /** Writing NUL into a string cuts it there. */
  lemma HoldsCut(buf: seq<char>, p: nat, s: string, k: nat)
    requires Holds(buf, p, s) && k <= |s|
    ensures p + k < |buf| && Holds(buf[p + k := NUL], p, s[..k])
  {
    HoldsAt(buf, p, s);
    HoldsIntro(buf[p + k := NUL], p, s[..k]);
  }

  lemma Assoc<T>(a: seq<T>, b: seq<T>, c: seq<T>)
    ensures (a + b) + c == a + (b + c)
  {}

  lemma Regroup<T>(done: seq<T>, x: T, rest: seq<T>)
    ensures done + ([x] + rest) == (done + [x]) + rest
  {}

  /** `c_str()` and `strdup`: a private NUL-terminated copy of a string. */
  method ToBuffer(s: string) returns (buf: array<char>)
    requires IsText(s)
    ensures fresh(buf) && buf.Length == |s| + 1 && Holds(buf[..], 0, s)
  {
    buf := new char[|s| + 1](i requires 0 <= i <= |s| => if i < |s| then s[i] else NUL);
    HoldsIntro(buf[..], 0, s);
  }

  /** Building a string from a `char *`: everything up to the first NUL. */
  method FromBuffer(buf: array<char>, p: nat, ghost s: string) returns (r: string)
    requires Holds(buf[..], p, s)
    ensures r == s
  {
    r := "";
    var q := p;
    while buf[q] != NUL
      invariant p <= q <= p + |s| && Holds(buf[..], q, s[q - p..])
      invariant r == s[..q - p]
      decreases p + |s| - q
    {
      HoldsSuffix(buf[..], p, s, q - p);
      HoldsSuffix(buf[..], p, s, q - p + 1);
      r := r + [buf[q]];
      q := q + 1;
    }
  }

  /** The pattern `c = *end; *end = 0; r = strdup(p); *end = c`: copies the text in front of
      `end` by ending the string there for a moment. The buffer is as it was afterwards. */
  method CopyUntil(buf: array<char>, p: nat, end: nat, ghost s: string) returns (r: string)
    requires Holds(buf[..], p, s) && p <= end <= p + |s|
    modifies buf
    ensures buf[..] == old(buf[..])
    ensures r == s[..end - p] && IsText(r)
  {
    HoldsAt(buf[..], p, s);
    var c := buf[end];
    ghost var before := buf[..];
    HoldsCut(before, p, s, end - p);
    buf[end] := NUL;
    assert buf[..] == before[end := NUL];
    r := FromBuffer(buf, p, s[..end - p]);
    buf[end] := c;
    assert buf[..] == before;
  }

  // ----- positions -----

  /** How many leading characters of `s` are whitespace; `i` of them are known to be. */
  function LeadingBlanks(s: string, i: nat := 0): (k: nat)
    requires i <= |s|
    ensures i <= k <= |s| && (forall j | i <= j < k :: IsSpace(s[j]))
    ensures k < |s| ==> !IsSpace(s[k])
    decreases |s| - i
  {
    if i < |s| && IsSpace(s[i]) then LeadingBlanks(s, i + 1) else i
  }

  lemma LeadingBlanksUnique(s: string, k: nat)
    requires k <= |s| && (forall j | 0 <= j < k :: IsSpace(s[j]))
    requires k < |s| ==> !IsSpace(s[k])
    ensures LeadingBlanks(s) == k
  {}

  /** How many leading characters of `s` are not whitespace. */
  function LeadingInk(s: string, i: nat := 0): (k: nat)
    requires i <= |s|
    ensures i <= k <= |s| && (forall j | i <= j < k :: !IsSpace(s[j]))
    ensures k < |s| ==> IsSpace(s[k])
    decreases |s| - i
  {
    if i < |s| && !IsSpace(s[i]) then LeadingInk(s, i + 1) else i
  }

  lemma LeadingInkUnique(s: string, k: nat)
    requires k <= |s| && (forall j | 0 <= j < k :: !IsSpace(s[j]))
    requires k < |s| ==> IsSpace(s[k])
    ensures LeadingInk(s) == k
  {}

  /** Where the first `c` of `s` at or behind `i` is, or the length of `s`. */
  function IndexOf(s: string, c: char, i: nat := 0): (k: nat)
    requires i <= |s|
    ensures i <= k <= |s| && (forall j | i <= j < k :: s[j] != c)
    ensures k < |s| ==> s[k] == c
    decreases |s| - i
  {
    if i < |s| && s[i] != c then IndexOf(s, c, i + 1) else i
  }

  lemma IndexOfUnique(s: string, c: char, k: nat)
    requires k <= |s| && (forall j | 0 <= j < k :: s[j] != c)
    requires k < |s| ==> s[k] == c
    ensures IndexOf(s, c) == k
  {}

  /** Where the first `c` of `text[i..n]` is, or `n`. */
  function PlaceOf(text: seq<char>, c: char, i: nat, n: nat): (k: nat)
    requires i <= n <= |text|
    ensures i <= k <= n && (k < n ==> text[k] == c) && forall j | i <= j < k :: text[j] != c
    decreases n - i
  {
    if i < n && text[i] != c then PlaceOf(text, c, i + 1, n) else i
  }

  /** The pointer `p` denotes the text that ends at `n`. */
  ghost predicate Terminated(text: seq<char>, p: nat, n: nat) {
    p <= n < |text| && text[n] == NUL && forall i | p <= i < n :: text[i] != NUL
  }

  // ----- pointer walks -----

  method SkipWhite(buf: array<char>, p: nat, ghost s: string) returns (q: nat)
    requires Holds(buf[..], p, s)
    ensures q == p + LeadingBlanks(s)
    ensures Holds(buf[..], q, s[q - p..])
  {
    q := p;
    while buf[q] != NUL && IsSpace(buf[q])
      invariant p <= q <= p + |s| && Holds(buf[..], q, s[q - p..])
      invariant forall i | 0 <= i < q - p :: IsSpace(s[i])
      decreases p + |s| - q
    {
      HoldsSuffix(buf[..], p, s, q - p);
      HoldsSuffix(buf[..], p, s, q - p + 1);
      q := q + 1;
    }
    LeadingBlanksUnique(s, q - p);
  }

  method SkipToWhite(buf: array<char>, p: nat, ghost s: string) returns (q: nat)
    requires Holds(buf[..], p, s)
    ensures q == p + LeadingInk(s)
    ensures Holds(buf[..], q, s[q - p..])
  {
    q := p;
    while buf[q] != NUL && !IsSpace(buf[q])
      invariant p <= q <= p + |s| && Holds(buf[..], q, s[q - p..])
      invariant forall i | 0 <= i < q - p :: !IsSpace(s[i])
      decreases p + |s| - q
    {
      HoldsSuffix(buf[..], p, s, q - p);
      HoldsSuffix(buf[..], p, s, q - p + 1);
      q := q + 1;
    }
    LeadingInkUnique(s, q - p);
  }

  /** `strchr` and `skip_to_char`. */
  method FindChar(buf: array<char>, p: nat, c: char, ghost s: string) returns (r: Pointer)
    requires Holds(buf[..], p, s) && c != NUL
    ensures r == if IndexOf(s, c) < |s| then To(p + IndexOf(s, c)) else Null
    ensures r.To? ==> Holds(buf[..], r.at, s[r.at - p..])
  {
    var q := p;
    while buf[q] != NUL
      invariant p <= q <= p + |s| && Holds(buf[..], q, s[q - p..])
      invariant forall i | 0 <= i < q - p :: s[i] != c
      decreases p + |s| - q
    {
      HoldsSuffix(buf[..], p, s, q - p);
      if buf[q] == c { break; }
      HoldsSuffix(buf[..], p, s, q - p + 1);
      q := q + 1;
    }
    IndexOfUnique(s, c, q - p);
    r := if buf[q] == c then To(q) else Null;
  }
}

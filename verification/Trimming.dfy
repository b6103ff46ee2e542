/** Trimming: the in-place buffer algorithm and what it leaves. */
module Trimming {
  import opened CStrings

  function TrimLeft(s: string): string {
    s[LeadingBlanks(s)..]
  }

  function TrimRight(s: string): (r: string)
    ensures r <= s
    decreases |s|
  {
    if s != "" && IsSpace(s[|s| - 1]) then TrimRight(s[..|s| - 1]) else s
  }

  function Trimmed(s: string): string {
    TrimRight(TrimLeft(s))
  }

  predicate IsTrimmed(s: string) {
    s == "" || (!IsSpace(s[0]) && !IsSpace(s[|s| - 1]))
  }

  // ----- what trimming means -----

  lemma {:induction false} TrimRightParts(s: string)
    ensures var r := TrimRight(s);
      && r <= s && Blank(s[|r|..])
      && (r == "" || !IsSpace(r[|r| - 1]))
    decreases |s|
  {
    if s != "" && IsSpace(s[|s| - 1]) {
      var t, r := s[..|s| - 1], TrimRight(s);
      TrimRightParts(t);
      assert forall i | 0 <= i < |s| - |r| - 1 :: s[|r|..][i] == t[|r|..][i];
    }
  }

  lemma {:induction false} TrimRightUnique(r: string, q: string)
    requires Blank(q) && (r == "" || !IsSpace(r[|r| - 1]))
    ensures TrimRight(r + q) == r
    decreases |q|
  {
    if q == "" {
      assert r + q == r;
    } else {
      var n := |q| - 1;
      assert (r + q)[..|r + q| - 1] == r + q[..n];
      assert (r + q)[|r + q| - 1] == q[n];
      TrimRightUnique(r, q[..n]);
    }
  }

  lemma TrimLeftUnique(p: string, t: string)
    requires Blank(p) && (t == "" || !IsSpace(t[0]))
    ensures TrimLeft(p + t) == t
  {
    LeadingBlanksUnique(p + t, |p|);
    assert (p + t)[|p|..] == t;
  }

  /** The two ends that trimming removes. */
  lemma TrimmedParts(s: string) returns (p: string, q: string)
    ensures Blank(p) && Blank(q) && s == p + Trimmed(s) + q
    ensures IsTrimmed(Trimmed(s))
  {
    var k := LeadingBlanks(s);
    var t := TrimLeft(s);
    TrimRightParts(t);
    p, q := s[..k], t[|Trimmed(s)|..];
    assert t == Trimmed(s) + q;
    assert s == p + t;
  }

  lemma TrimmedUnique(p: string, t: string, q: string)
    requires Blank(p) && Blank(q) && IsTrimmed(t)
    ensures Trimmed(p + t + q) == t
  {
    if t == "" {
      assert p + t + q == (p + q) + "";
      assert forall i | 0 <= i < |p + q| :: IsSpace((p + q)[i]);
      TrimLeftUnique(p + q, "");
    } else {
      assert p + t + q == p + (t + q);
      TrimLeftUnique(p, t + q);
      TrimRightUnique(t, q);
    }
  }

  /** Trimming leaves exactly the maximal substring with no whitespace at either end:
      `t` is the trimmed text if and only if it is such a middle part. */
  lemma TrimmedExactly(s: string, t: string)
    ensures t == Trimmed(s)
       <==> IsTrimmed(t) && exists p, q :: Blank(p) && Blank(q) && s == p + t + q
  {
    var p, q := TrimmedParts(s);
    assert t == Trimmed(s) ==> s == p + t + q;
    forall p', q' | IsTrimmed(t) && Blank(p') && Blank(q') && s == p' + t + q'
      ensures t == Trimmed(s)
    {
      TrimmedUnique(p', t, q');
    }
  }

  lemma TrimmedOfTrimmed(s: string)
    requires IsTrimmed(s)
    ensures Trimmed(s) == s
  {
    TrimmedUnique("", s, "");
    assert "" + s + "" == s;
  }

  lemma TrimmedAtBothEnds(s: string)
    requires Trimmed(s) == s
    ensures IsTrimmed(s) && TrimRight(s) == s
  {
    var p, q := TrimmedParts(s);
    TrimRightUnique(s, "");
    assert s + "" == s;
  }

  /** Trimming twice is trimming once. */
  lemma TrimIdempotent(s: string)
    ensures Trimmed(Trimmed(s)) == Trimmed(s)
  {
    var p, q := TrimmedParts(s);
    TrimmedOfTrimmed(Trimmed(s));
  }

  /** Whitespace around a text does not change what trimming leaves of it. */
  lemma TrimmedPadded(p: string, s: string, q: string)
    requires Blank(p) && Blank(q)
    ensures Trimmed(p + s + q) == Trimmed(s)
  {
    var p', q' := TrimmedParts(s);
    var t := Trimmed(s);
    assert p + s + q == (p + p') + t + (q' + q);
    TrimmedUnique(p + p', t, q' + q);
  }

  lemma TrimmedBlank(s: string)
    ensures Trimmed(s) == "" <==> Blank(s)
  {
    var p, q := TrimmedParts(s);
    if Blank(s) {
      TrimmedUnique(s, "", "");
      assert s + "" + "" == s;
    }
  }

  /** A trimmed text is a slice of the original one. */
  lemma TrimmedMembers(s: string)
    ensures |Trimmed(s)| <= |s|
    ensures forall c | c in Trimmed(s) :: c in s
  {
    var p, q := TrimmedParts(s);
    assert forall c | c in Trimmed(s) :: c in p + Trimmed(s) + q;
  }

  function TrimAll(xs: seq<string>): (r: seq<string>)
    ensures |r| == |xs| && forall i | 0 <= i < |xs| :: r[i] == Trimmed(xs[i])
  {
    seq(|xs|, i requires 0 <= i < |xs| => Trimmed(xs[i]))
  }

  lemma TrimAllConcat(xs: seq<string>, ys: seq<string>)
    ensures TrimAll(xs + ys) == TrimAll(xs) + TrimAll(ys)
  {}

  // ----- the algorithm -----

  /** The copying loop of `trim_front`: moves the text at `tmp` to the start of the buffer. */
  method ShiftLeft(buf: array<char>, k: nat, ghost s: string) returns (front: nat)
    requires Holds(buf[..], k, s)
    modifies buf
    ensures front == |s| && Holds(buf[..], 0, s)
    ensures forall i | k + |s| <= i < buf.Length :: buf[i] == old(buf[i])
  {
    HoldsAt(buf[..], k, s);
    var tmp := k;
    front := 0;
    while buf[tmp] != NUL
      invariant tmp == k + front && front <= |s|
      invariant buf[tmp] == NUL <==> front == |s|
      invariant forall i | 0 <= i < front :: buf[i] == s[i]
      invariant forall i | tmp <= i < buf.Length :: buf[i] == old(buf[i])
      decreases |s| - front
    {
      buf[front] := buf[tmp];
      front, tmp := front + 1, tmp + 1;
      assert front < |s| ==> buf[tmp] == s[front];
    }
    buf[front] := NUL;
    HoldsIntro(buf[..], 0, s);
  }

  /** Shifts the text left over its leading whitespace; returns its last character's place. */
  method TrimFront(buf: array<char>, ghost s: string) returns (front: nat)
    requires Holds(buf[..], 0, s)
    modifies buf
    ensures Holds(buf[..], 0, TrimLeft(s))
    ensures front == if TrimLeft(s) == "" then 0 else |TrimLeft(s)| - 1
    ensures forall i | |s| <= i < buf.Length :: buf[i] == old(buf[i])
  {
    var tmp := SkipWhite(buf, 0, s);
    front := ShiftLeft(buf, tmp, s[tmp..]);
    if front > 0 { front := front - 1; }
  }

  /** What the loops leave that NUL whitespace from the end: they stop at the first character,
      so the first of several blanks stays. */
  function EndTrimmed(s: string): string {
    if |s| > 1 && Blank(s) then s[..1] else TrimRight(s)
  }

  lemma EndTrimmedVisible(s: string)
    requires s == "" || !IsSpace(s[0])
    ensures EndTrimmed(s) == TrimRight(s)
  {}

  /** Which part of a text is left: all but the whitespace at its end, though never nothing. */
  lemma EndTrimmedExactly(s: string, t: string)
    requires |s| == 1 ==> !IsSpace(s[0])
    ensures t == EndTrimmed(s)
       <==> t <= s && Blank(s[|t|..]) && (s == "" || (t != "" && (|t| == 1 || !IsSpace(t[|t| - 1]))))
  {
    TrimRightParts(s);
    if t <= s && Blank(s[|t|..]) {
      assert s == t + s[|t|..];
      if t != "" && !IsSpace(t[|t| - 1]) { TrimRightUnique(t, s[|t|..]); }
      if t != "" && Blank(s) { assert IsSpace(s[|t| - 1]); }
      if |t| == 1 && IsSpace(t[0]) { BlankEnd(s, t); }
    }
  }

  lemma BlankEnd(s: string, t: string)
    requires |t| == 1 && t <= s && IsSpace(t[0]) && Blank(s[1..])
    ensures Blank(s)
  {
    assert forall i | 1 <= i < |s| :: s[i] == s[1..][i - 1];
  }

  lemma EndTrimmedSome(s: string)
    requires s != "" && (|s| == 1 ==> !IsSpace(s[0]))
    ensures EndTrimmed(s) != ""
  {
    TrimRightParts(s);
    assert s[0..] == s;
  }

  /** `t` is `s` without some of the whitespace at its end, and still to be trimmed. */
  ghost predicate EndCut(s: string, t: string) {
    && t <= s && Blank(s[|t|..]) && TrimRight(t) == TrimRight(s)
    && (s == "" <==> t == "") && (|t| == 1 ==> t == s)
  }

  lemma EndReached(s: string, t: string)
    requires t <= s && Blank(s[|t|..]) && TrimRight(t) == TrimRight(s) && |t| >= 1
    requires (|t| == 1 && |s| > 1) || !IsSpace(t[|t| - 1])
    ensures t == EndTrimmed(s)
  {
    assert s == t + s[|t|..];
    if !IsSpace(t[|t| - 1]) { assert s[|t| - 1] == t[|t| - 1]; }
  }

  lemma EndStep(buf: seq<char>, s: string, t: string, e: nat)
    requires EndCut(s, t) && Holds(buf, 0, t) && |t| == e + 1 && e > 0 && IsSpace(t[e])
    ensures e < |buf| && Holds(buf[e := NUL], 0, t[..e])
    ensures e > 1 ==> EndCut(s, t[..e])
    ensures e == 1 ==> t[..e] == EndTrimmed(s)
  {
    HoldsCut(buf, 0, t, e);
    assert s[e..] == [t[e]] + s[|t|..];
    if e == 1 { EndReached(s, t[..e]); }
  }

  /** NULs the whitespace at the end. A single blank is the one text on which the source would
      step in front of its buffer. */
  method TrimFromEnd(buf: array<char>, tmp: nat, ghost s: string) returns (ender: nat)
    requires Holds(buf[..], 0, s)
    requires tmp == if s == "" then 0 else |s| - 1
    requires |s| == 1 ==> !IsSpace(s[0])
    modifies buf
    ensures Holds(buf[..], 0, EndTrimmed(s))
    ensures ender == if EndTrimmed(s) == "" then 0 else |EndTrimmed(s)| - 1
    ensures forall i | |s| <= i < buf.Length :: buf[i] == old(buf[i])
  {
    HoldsAt(buf[..], 0, s);
    ender := tmp;
    ghost var t := s;
    while buf[ender] == '\n' || IsSpace(buf[ender])
      invariant EndCut(s, t) && Holds(buf[..], 0, t)
      invariant ender < buf.Length && ender == if t == "" then 0 else |t| - 1
      invariant forall i | |s| <= i < buf.Length :: buf[i] == old(buf[i])
      decreases |t|
    {
      if |t| <= 1 { assert false; }
      HoldsSuffix(buf[..], 0, t, ender);
      ghost var before := buf[..];
      EndStep(before, s, t, ender);
      buf[ender] := NUL;
      assert buf[..] == before[ender := NUL];
      t := t[..ender];
      ender := ender - 1;
      if ender == 0 { return; }
    }
    if t != "" {
      HoldsSuffix(buf[..], 0, t, ender);
      EndReached(s, t);
    }
  }

  /** `trim`: works in place on any text, the empty and the all-blank one included. */
  method Trim(buf: array<char>, ghost s: string)
    requires Holds(buf[..], 0, s)
    modifies buf
    ensures Holds(buf[..], 0, Trimmed(s))
    ensures forall i | |s| <= i < buf.Length :: buf[i] == old(buf[i])
  {
    var front := TrimFront(buf, s);
    ghost var t := TrimLeft(s);
    EndTrimmedVisible(t);
    var _ := TrimFromEnd(buf, front, t);
  }

  /** `trim_end`; here the empty text, too, would make the source step in front of its buffer. */
  method TrimEnd(buf: array<char>, ghost s: string) returns (ender: nat)
    requires Holds(buf[..], 0, s)
    requires s != "" && (|s| == 1 ==> !IsSpace(s[0]))
    modifies buf
    ensures Holds(buf[..], 0, EndTrimmed(s)) && EndTrimmed(s) != "" && ender == |EndTrimmed(s)| - 1
    ensures forall i | |s| <= i < buf.Length :: buf[i] == old(buf[i])
  {
    ender := 0;
    while buf[ender] != NUL
      invariant ender <= |s| && Holds(buf[..], ender, s[ender..]) && buf[..] == old(buf[..])
      decreases |s| - ender
    {
      HoldsSuffix(buf[..], 0, s, ender + 1);
      ender := ender + 1;
    }
    EndTrimmedSome(s);
    ender := TrimFromEnd(buf, ender - 1, s);
  }

  /** `trim_string`, and the pattern `trim(ctr_strcdup(s.c_str()))`. */
  method TrimString(data: string) returns (r: string)
    requires IsText(data)
    ensures r == Trimmed(data) && IsText(r)
  {
    var buf := ToBuffer(data);
    Trim(buf, data);
    r := FromBuffer(buf, 0, Trimmed(data));
  }
}

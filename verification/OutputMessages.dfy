/** The bounded message buffer: chunks that do not fit are dropped whole. */
module OutputMessages {
  import opened CStrings

  const MAX_TCP_MESSAGE_SIZE := 64000

  /** The function that tells how long a message will be, once it has been set. */
  datatype Calculator = Unset | Calculator(apply: seq<char> -> int)

  type CInt = x: int | -0x8000_0000 <= x < 0x8000_0000

  /** The conversion of an `int` to a `size_t` of 64 bits. */
  function AsSize(x: int): (r: nat)
    ensures 0 <= x < 0x1_0000_0000_0000_0000 ==> r == x
    ensures -0x1_0000_0000_0000_0000 <= x < 0 ==> r == x + 0x1_0000_0000_0000_0000
  {
    x % 0x1_0000_0000_0000_0000
  }

  /** What a message holds, and how long it is expected to become. */
  datatype Held = Held(content: seq<char>, expectedLength: nat)

  /** Whether a chunk still fits behind what is held. */
  predicate Fits(content: seq<char>, length: nat) {
    |content| + length < MAX_TCP_MESSAGE_SIZE
  }

  /** A chunk is added whole or not at all; the one that finds nothing held sets the expected length. */
  function Appended(st: Held, data: seq<char>, length: nat, cel: Calculator): Held
    requires Fits(st.content, length) ==> length <= |data|
  {
    if !Fits(st.content, length) then st
    else Held(st.content + data[..length],
               if st.content == [] && cel.Calculator? then AsSize(cel.apply(data)) else st.expectedLength)
  }

  class OutputMessage {
    const message: array<char>
    var msgLen: nat
    var expectedLength: nat
    var calcExpectedLength: Calculator
    var sourceString: string

    ghost predicate Valid()
      reads this, message
    {
      && message.Length == MAX_TCP_MESSAGE_SIZE
      && msgLen < MAX_TCP_MESSAGE_SIZE
      && forall i | msgLen <= i < MAX_TCP_MESSAGE_SIZE :: message[i] == NUL
    }

    ghost function Contents(): Held
      reads this, message
      requires Valid()
    {
      Held(message[..msgLen], expectedLength)
    }

    /** The source leaves the expected length as it finds it; here it starts as `garbage`. */
    constructor (garbage: nat)
      ensures Valid() && fresh(message) && Contents() == Held([], garbage)
      ensures calcExpectedLength.Unset?
    {
      message := new char[MAX_TCP_MESSAGE_SIZE](_ => NUL);
      msgLen, expectedLength, calcExpectedLength, sourceString := 0, garbage, Unset, "";
    }

    /** The copy constructor. */
    constructor Copy(other: OutputMessage)
      requires other.Valid()
      ensures Valid() && fresh(message) && Contents() == other.Contents()
      ensures sourceString == other.sourceString && calcExpectedLength.Unset?
    {
      calcExpectedLength := Unset;
      expectedLength, msgLen := other.expectedLength, other.msgLen;
      message := new char[MAX_TCP_MESSAGE_SIZE](_ => NUL);
      sourceString := other.sourceString;
      new;
      forall i | 0 <= i < other.msgLen {
        message[i] := other.message[i];
      }
      assert message[..msgLen] == other.message[..msgLen];
    }

    method SetExpectedLengthCalculator(cel: seq<char> -> int)
      modifies this`calcExpectedLength
      ensures calcExpectedLength == Calculator(cel)
    {
      calcExpectedLength := Calculator(cel);
    }

    method Empty() returns (r: bool)
      requires Valid()
      ensures r <==> Contents().content == []
    {
      r := msgLen == 0;
    }

    method Length() returns (r: nat)
      requires Valid()
      ensures r == |Contents().content|
    {
      r := msgLen;
    }

    /** What the copying of a chunk demands: a length that is not negative, a source that long,
        and no overlap with the place behind what is held. */
    ghost predicate Copyable(data: array<char>, length: CInt)
      reads this
    {
      0 <= length <= data.Length && (data == message ==> length <= msgLen)
    }

    /** `append_data`; it says true whether or not the chunk fitted. In the comparison the length
        becomes unsigned, so a negative one fits only if it is made up for by what is held. */
    method AppendData(data: array<char>, length: CInt) returns (r: bool)
      requires Valid()
      requires MAX_TCP_MESSAGE_SIZE > AsSize(msgLen + length) ==>
        Copyable(data, length) && (msgLen == 0 ==> calcExpectedLength.Calculator?)
      modifies this`msgLen, this`expectedLength, message
      ensures Valid() && r
      ensures length < 0 || old(msgLen) + length >= MAX_TCP_MESSAGE_SIZE ==>
        Contents() == old(Contents()) && message[..] == old(message[..])
      ensures 0 <= length && old(msgLen) + length < MAX_TCP_MESSAGE_SIZE ==>
        && Contents().content == old(Contents().content) + old(data[..])[..length]
        && (old(msgLen) > 0 ==> expectedLength == old(expectedLength))
        && (old(msgLen) == 0 ==> expectedLength == AsSize(calcExpectedLength.apply(old(data[..]))))
      ensures length >= 0 ==> Contents() == old(Appended(Contents(), data[..], length, calcExpectedLength))
    {
      if MAX_TCP_MESSAGE_SIZE > AsSize(msgLen + length) {
        var empty := Empty();
        if empty {
          expectedLength := AsSize(calcExpectedLength.apply(data[..]));
        }
        ghost var before, chunk := message[..msgLen], data[..length];
        forall i | 0 <= i < length {
          message[msgLen + i] := data[i];
        }
        msgLen := msgLen + length;
        assert message[..msgLen] == before + chunk;
      }
      return true;
    }

    method ClearData()
      requires Valid()
      modifies this`msgLen, message
      ensures Valid() && Contents() == Held([], old(expectedLength))
    {
      forall i | 0 <= i < MAX_TCP_MESSAGE_SIZE {
        message[i] := NUL;
      }
      msgLen := 0;
    }
  }

  // ----- runs of calls -----

  datatype AnyCall = Append(data: seq<char>, length: nat) | Clear

  /** Calls that stay inside the data they pass. */
  type Call = c: AnyCall | c.Append? ==> c.length <= |c.data| witness Clear

  /** The effect of one call, as the methods promise it. */
  function After(st: Held, c: Call, cel: Calculator): Held {
    match c
    case Append(data, length) => Appended(st, data, length, cel)
    case Clear => Held([], st.expectedLength)
  }

  function Run(st: Held, calls: seq<Call>, cel: Calculator): Held
    decreases |calls|
  {
    if calls == [] then st else After(Run(st, calls[..|calls| - 1], cel), calls[|calls| - 1], cel)
  }

  /** Every run of calls leaves room for a terminator. */
  lemma {:induction false} RunsStayBelowTheBound(st: Held, calls: seq<Call>, cel: Calculator)
    requires |st.content| < MAX_TCP_MESSAGE_SIZE
    ensures |Run(st, calls, cel).content| < MAX_TCP_MESSAGE_SIZE
    decreases |calls|
  {
    if calls != [] {
      RunsStayBelowTheBound(st, calls[..|calls| - 1], cel);
    }
  }

  lemma {:induction false} RunConcat(st: Held, a: seq<Call>, b: seq<Call>, cel: Calculator)
    ensures Run(st, a + b, cel) == Run(Run(st, a, cel), b, cel)
    decreases |b|
  {
    if b == [] {
      assert a + b == a;
    } else {
      assert (a + b)[..|a + b| - 1] == a + b[..|b| - 1];
      RunConcat(st, a, b[..|b| - 1], cel);
    }
  }

  /** Clearing forgets every call before it, except for the expected length. */
  lemma {:induction false} ClearForgets(st: Held, a: seq<Call>, b: seq<Call>, cel: Calculator)
    ensures Run(st, a + [Clear] + b, cel) == Run(Held([], Run(st, a, cel).expectedLength), b, cel)
  {
    var clear: seq<Call> := [Clear];
    assert clear[..0] == [];
    RunConcat(st, a, clear, cel);
    RunConcat(st, a + clear, b, cel);
  }

  // ----- which chunks are kept -----

  ghost predicate OnlyAppends(calls: seq<Call>) {
    forall i | 0 <= i < |calls| :: calls[i].Append?
  }

  /** The flagged chunks, one after the other. */
  function Kept(calls: seq<Call>, keep: seq<bool>): seq<char>
    requires |keep| == |calls|
    decreases |calls|
  {
    if calls == [] then []
    else
      var n := |calls| - 1;
      Kept(calls[..n], keep[..n]) + if keep[n] && calls[n].Append? then calls[n].data[..calls[n].length] else []
  }

  ghost predicate FlagFits(calls: seq<Call>, keep: seq<bool>, i: nat)
    requires i < |keep| == |calls| && calls[i].Append?
  {
    keep[i] <==> Fits(Kept(calls[..i], keep[..i]), calls[i].length)
  }

  /** The rule of keeping: a chunk is flagged exactly if it fits behind the flagged ones before it. */
  ghost predicate KeptWhileFitting(calls: seq<Call>, keep: seq<bool>)
    requires |keep| == |calls| && OnlyAppends(calls)
  {
    forall i: nat | i < |calls| :: FlagFits(calls, keep, i)
  }

  lemma FlagOfPrefix(calls: seq<Call>, keep: seq<bool>, n: nat, i: nat)
    requires i < n <= |calls| == |keep| && OnlyAppends(calls)
    ensures FlagFits(calls[..n], keep[..n], i) <==> FlagFits(calls, keep, i)
  {
    assert calls[..n][..i] == calls[..i] && keep[..n][..i] == keep[..i];
  }

  lemma RuleOfPrefix(calls: seq<Call>, keep: seq<bool>, n: nat)
    requires n <= |calls| == |keep| && OnlyAppends(calls) && KeptWhileFitting(calls, keep)
    ensures KeptWhileFitting(calls[..n], keep[..n])
  {
    forall i: nat | i < n ensures FlagFits(calls[..n], keep[..n], i) {
      FlagOfPrefix(calls, keep, n, i);
    }
  }

  /** A message that starts empty and is never cleared holds exactly the chunks the rule keeps. */
  lemma {:induction false} HoldsTheKeptChunks(expected: nat, calls: seq<Call>, keep: seq<bool>, cel: Calculator)
    requires |keep| == |calls| && OnlyAppends(calls) && KeptWhileFitting(calls, keep)
    ensures Run(Held([], expected), calls, cel).content == Kept(calls, keep)
    decreases |calls|
  {
    if calls != [] {
      var n := |calls| - 1;
      RuleOfPrefix(calls, keep, n);
      HoldsTheKeptChunks(expected, calls[..n], keep[..n], cel);
      assert FlagFits(calls, keep, n);
    }
  }

  lemma RuleSnoc(calls: seq<Call>, keep: seq<bool>, n: nat)
    requires |keep| == |calls| == n + 1 && OnlyAppends(calls)
    requires KeptWhileFitting(calls[..n], keep[..n]) && FlagFits(calls, keep, n)
    ensures KeptWhileFitting(calls, keep)
  {
    forall i: nat | i < n ensures FlagFits(calls, keep, i) {
      FlagOfPrefix(calls, keep, n, i);
    }
  }

  /** The rule can always be followed, and in one way only. */
  lemma {:induction false} RuleDecides(calls: seq<Call>) returns (keep: seq<bool>)
    requires OnlyAppends(calls)
    ensures |keep| == |calls| && KeptWhileFitting(calls, keep)
    ensures forall other: seq<bool> | |other| == |calls| && KeptWhileFitting(calls, other) :: other == keep
    decreases |calls|
  {
    if calls == [] {
      keep := [];
    } else {
      var n := |calls| - 1;
      var before := RuleDecides(calls[..n]);
      keep := before + [Fits(Kept(calls[..n], before), calls[n].length)];
      assert keep[..n] == before;
      RuleSnoc(calls, keep, n);
      forall other: seq<bool> | |other| == |calls| && KeptWhileFitting(calls, other)
        ensures other == keep
      {
        RuleOfPrefix(calls, other, n);
        assert other[..n] == before && FlagFits(calls, other, n);
        assert other == other[..n] + [other[n]];
      }
    }
  }

  // ----- the expected length -----

  /** Once something is held, further chunks leave the expected length alone. */
  lemma {:induction false} ExpectedLengthStays(st: Held, calls: seq<Call>, cel: Calculator)
    requires st.content != [] && OnlyAppends(calls)
    ensures Run(st, calls, cel).content != []
    ensures Run(st, calls, cel).expectedLength == st.expectedLength
    decreases |calls|
  {
    if calls != [] {
      ExpectedLengthStays(st, calls[..|calls| - 1], cel);
    }
  }

  /** The expected length of a message is what the calculator says of its first chunk with content. */
  lemma {:induction false} FirstChunkSetsLength(st: Held, calls: seq<Call>, i: nat, cel: Calculator)
    requires i < |calls| && OnlyAppends(calls[i..]) && cel.Calculator?
    requires Run(st, calls[..i], cel).content == [] && 0 < calls[i].length && Fits([], calls[i].length)
    ensures Run(st, calls, cel).expectedLength == AsSize(cel.apply(calls[i].data))
  {
    var upTo := calls[..i + 1];
    assert upTo[..i] == calls[..i] && upTo + calls[i + 1..] == calls;
    RunConcat(st, upTo, calls[i + 1..], cel);
    assert OnlyAppends(calls[i + 1..]) by {
      assert forall k | i + 1 <= k < |calls| :: calls[k] == calls[i..][k - i];
    }
    assert calls[i] == calls[i..][0];
    ExpectedLengthStays(Run(st, upTo, cel), calls[i + 1..], cel);
  }

  lemma {:induction false} NothingFits(st: Held, calls: seq<Call>, cel: Calculator)
    requires OnlyAppends(calls) && forall c | c in calls :: !Fits(st.content, c.length)
    ensures Run(st, calls, cel) == st
    decreases |calls|
  {
    if calls != [] {
      var n := |calls| - 1;
      assert calls[n] in calls && forall c | c in calls[..n] :: c in calls;
      NothingFits(st, calls[..n], cel);
    }
  }

  /** A chunk without content sets the expected length, too, as long as nothing is held: it is that of the
      last chunk which fits while nothing is held. Chunks that are dropped set nothing. */
  lemma EmptyChunkSetsLength(st: Held, calls: seq<Call>, i: nat, cel: Calculator)
    requires i < |calls| && OnlyAppends(calls[i..]) && cel.Calculator?
    requires Run(st, calls[..i], cel).content == [] && calls[i].length == 0
    requires forall c | c in calls[i + 1..] :: c.Append? && !Fits([], c.length)
    ensures Run(st, calls, cel) == Held([], AsSize(cel.apply(calls[i].data)))
  {
    var upTo, behind := calls[..i + 1], calls[i + 1..];
    assert upTo[..i] == calls[..i] && upTo + behind == calls;
    assert calls[i] == calls[i..][0];
    RunConcat(st, upTo, behind, cel);
    assert OnlyAppends(behind) by {
      assert forall k | 0 <= k < |behind| :: behind[k] in behind;
    }
    NothingFits(Run(st, upTo, cel), behind, cel);
  }
}

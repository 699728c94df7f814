/**
 * The wait loop of `Pinger.receive_icmp` as a state machine over an abstract
 * trace of events.  Each event is one iteration of the loop: either `select`
 * reports no readable socket, or a packet was read after `select` took some
 * ticks.  The trace is finite, so a result may be `Undetermined`: the loop
 * would still be waiting when the trace ends.
 *
 * A reply is matched on its identifier only; its type and sequence are never
 * looked at.  As written, the budget is reset to the full timeout at every
 * iteration, so foreign packets arriving faster than the timeout keep the loop
 * waiting forever; `Receive` is the corrected loop that carries the remaining
 * budget across iterations.
 */
module WaitLoop {
  import opened Bytes
  import opened Outcomes
  import opened Icmp

  datatype Event =
    | SelectTimeout
    | Readable(packet: seq<byte>, spent: nat)

  /** `select` rejects a negative timeout (ValueError); `struct.unpack` rejects a short slice. */
  datatype ReceiveError = NegativeTimeout | Unpack

  /** The return of `receive_icmp`: the echoed send timestamp (from which the delay is computed), `None`, or an exception. */
  datatype Wait = Delay(sentStamp: seq<byte>) | TimedOut | Raised(error: ReceiveError) | Undetermined

  /** How one received packet is judged. */
  datatype Verdict = Unreadable | Foreign | Answer(stamp: seq<byte>)

  /** The identifier field of a received packet: bytes 24 and 25, in host order. */
  function PacketIdentifier(pkt: seq<byte>, host: ByteOrder): uint16
    requires |pkt| >= IpHeaderLength + HeaderLength
  {
    UnpackU16(pkt[24..26], host)
  }

  /**
   * One packet: a packet too short for the header raises, a foreign
   * identifier is skipped, and a packet carrying the identifier yields its
   * timestamp, or raises when too short for it.
   */
  function Inspect(pkt: seq<byte>, id: uint16, host: ByteOrder): (v: Verdict)
    ensures v.Foreign? <==> |pkt| >= 28 && PacketIdentifier(pkt, host) != id
    ensures v.Answer? <==> |pkt| >= 36 && PacketIdentifier(pkt, host) == id
    ensures v.Answer? ==> v.stamp == pkt[28..36]
  {
    if |pkt| < IpHeaderLength + HeaderLength then Unreadable
    else if PacketIdentifier(pkt, host) != id then Foreign
    else if |pkt| < IpHeaderLength + HeaderLength + StampLength then Unreadable
    else Answer(pkt[IpHeaderLength + HeaderLength..IpHeaderLength + HeaderLength + StampLength])
  }

  /**
   * `Inspect` is the decoder's verdict: unpack the header, compare its
   * identifier, and only for a match unpack the timestamp.
   */
  lemma InspectFollowsDecoder(pkt: seq<byte>, id: uint16, host: ByteOrder)
    ensures Inspect(pkt, id, host) ==
      match DecodeHeader(pkt, host)
      case Err(_) => Unreadable
      case Ok(h) =>
        if h.identifier != id then Foreign
        else
          match DecodeStamp(pkt)
          case Err(_) => Unreadable
          case Ok(s) => Answer(s)
  {
    if DecodeHeader(pkt, host).Ok? {
      var h := DecodeHeader(pkt, host).value;
      assert PackHeader(h, host) == pkt[20..28];
      assert pkt[20..28][4..6] == pkt[24..26];
      assert h.identifier == PacketIdentifier(pkt, host);
    }
  }

  /** `receive_icmp` as written: `time_remaining = timeout` at the top of every iteration. */
  function ReceiveAsWritten(events: seq<Event>, id: uint16, timeout: int, host: ByteOrder): (r: Wait)
    ensures r == Raised(NegativeTimeout) <==> timeout < 0
    ensures r.Delay? ==> |r.sentStamp| == StampLength
    decreases |events|
  {
    if timeout < 0 then Raised(NegativeTimeout)
    else if events == [] then Undetermined
    else
      match events[0]
      case SelectTimeout => TimedOut
      case Readable(pkt, spent) =>
        match Inspect(pkt, id, host)
        case Unreadable => Raised(Unpack)
        case Answer(s) => Delay(s)
        case Foreign =>
          if timeout - spent <= 0 then TimedOut else ReceiveAsWritten(events[1..], id, timeout, host)
  }

  /** The corrected loop: a foreign packet costs the time `select` spent out of what remains. */
  function ReceiveWithin(events: seq<Event>, id: uint16, remaining: int, host: ByteOrder): (r: Wait)
    ensures r == Raised(NegativeTimeout) <==> remaining < 0
    ensures r.Delay? ==> |r.sentStamp| == StampLength
    ensures r == Undetermined ==> Elapsed(events) <= remaining
    decreases |events|
  {
    if remaining < 0 then Raised(NegativeTimeout)
    else if events == [] then Undetermined
    else
      match events[0]
      case SelectTimeout => TimedOut
      case Readable(pkt, spent) =>
        match Inspect(pkt, id, host)
        case Unreadable => Raised(Unpack)
        case Answer(s) => Delay(s)
        case Foreign =>
          if remaining - spent <= 0 then TimedOut else ReceiveWithin(events[1..], id, remaining - spent, host)
  }

  function Receive(events: seq<Event>, id: uint16, timeout: int, host: ByteOrder): Wait
  {
    ReceiveWithin(events, id, timeout, host)
  }

  // ---------------------------------------------------------------------------
  // Vocabulary for the lemmas

  predicate IsForeign(e: Event, id: uint16, host: ByteOrder)
  {
    e.Readable? && Inspect(e.packet, id, host) == Foreign
  }

  predicate AnswersWith(e: Event, id: uint16, host: ByteOrder, s: seq<byte>)
  {
    e.Readable? && Inspect(e.packet, id, host) == Answer(s)
  }

  /** The ticks `select` took over a run of events. */
  function Elapsed(es: seq<Event>): nat
  {
    if es == [] then 0 else (if es[0].Readable? then es[0].spent else 0) + Elapsed(es[1..])
  }

  // ---------------------------------------------------------------------------
  // The loop as written

  /** The first `i` events are foreign packets. */
  predicate ForeignRun(events: seq<Event>, i: nat, id: uint16, host: ByteOrder)
    requires i <= |events|
  {
    forall j :: 0 <= j < i ==> IsForeign(events[j], id, host)
  }

  /** The first `i` events are foreign packets on each of which `select` spent less than `timeout`. */
  predicate QuickForeignRun(events: seq<Event>, i: nat, id: uint16, timeout: int, host: ByteOrder)
    requires i <= |events|
  {
    forall j :: 0 <= j < i ==> IsForeign(events[j], id, host) && events[j].spent < timeout
  }

  /**
   * As written, the loop returns the timestamp of the first packet carrying
   * the identifier, provided every earlier event was a foreign packet on which
   * `select` spent less than the full timeout, however long they took together.
   */
  lemma AsWrittenDelayIff(events: seq<Event>, id: uint16, timeout: int, host: ByteOrder, s: seq<byte>)
    requires timeout >= 0
    ensures ReceiveAsWritten(events, id, timeout, host) == Delay(s) <==>
      (exists i :: 0 <= i < |events| && AnswersWith(events[i], id, host, s) && QuickForeignRun(events, i, id, timeout, host))
  {
    if ReceiveAsWritten(events, id, timeout, host) == Delay(s) {
      var i := AsWrittenDelaySound(events, id, timeout, host, s);
    }
    if exists i :: 0 <= i < |events| && AnswersWith(events[i], id, host, s) && QuickForeignRun(events, i, id, timeout, host) {
      var i :| 0 <= i < |events| && AnswersWith(events[i], id, host, s) && QuickForeignRun(events, i, id, timeout, host);
      AsWrittenDelayComplete(events, id, timeout, host, s, i);
    }
  }

  lemma {:induction false} AsWrittenDelaySound(events: seq<Event>, id: uint16, timeout: int, host: ByteOrder, s: seq<byte>)
    returns (i: nat)
    requires ReceiveAsWritten(events, id, timeout, host) == Delay(s)
    ensures i < |events| && AnswersWith(events[i], id, host, s) && QuickForeignRun(events, i, id, timeout, host)
    decreases |events|
  {
    if AnswersWith(events[0], id, host, s) {
      i := 0;
    } else {
      assert IsForeign(events[0], id, host) && events[0].spent < timeout;
      var rest := events[1..];
      assert ReceiveAsWritten(rest, id, timeout, host) == Delay(s);
      var k := AsWrittenDelaySound(rest, id, timeout, host, s);
      i := k + 1;
      assert events[i] == rest[k];
      forall j | 0 <= j < i
        ensures IsForeign(events[j], id, host) && events[j].spent < timeout
      {
        if j > 0 {
          assert events[j] == rest[j - 1];
        }
      }
    }
  }

  lemma {:induction false} AsWrittenDelayComplete(events: seq<Event>, id: uint16, timeout: int, host: ByteOrder, s: seq<byte>, i: nat)
    requires timeout >= 0 && i < |events| && AnswersWith(events[i], id, host, s)
    requires QuickForeignRun(events, i, id, timeout, host)
    ensures ReceiveAsWritten(events, id, timeout, host) == Delay(s)
  {
    if i > 0 {
      assert IsForeign(events[0], id, host);
      var rest := events[1..];
      forall j | 0 <= j < i - 1
        ensures IsForeign(rest[j], id, host) && rest[j].spent < timeout
      {
        assert rest[j] == events[j + 1];
      }
      AsWrittenDelayComplete(rest, id, timeout, host, s, i - 1);
    }
  }

  /** An event on which the loop as written stops waiting: anything but a foreign packet that took less than the timeout. */
  predicate Decides(e: Event, id: uint16, timeout: int, host: ByteOrder)
  {
    !(IsForeign(e, id, host) && e.spent < timeout)
  }

  /** What the loop returns on the event that decides it. */
  function Decision(e: Event, id: uint16, host: ByteOrder): Wait
  {
    match e
    case SelectTimeout => TimedOut
    case Readable(pkt, _) =>
      match Inspect(pkt, id, host)
      case Unreadable => Raised(Unpack)
      case Answer(s) => Delay(s)
      case Foreign => TimedOut
  }

  /** The index of the first event that decides the loop as written, or the length of the trace when none does. */
  function FirstDecisive(events: seq<Event>, id: uint16, timeout: int, host: ByteOrder): (n: nat)
    ensures n <= |events|
    ensures n < |events| ==> Decides(events[n], id, timeout, host)
    ensures QuickForeignRun(events, n, id, timeout, host)
  {
    if events == [] || Decides(events[0], id, timeout, host) then 0
    else
      var m := FirstDecisive(events[1..], id, timeout, host);
      assert forall j :: 1 <= j < 1 + m ==> events[j] == events[1..][j - 1];
      1 + m
  }

  /** Only the first deciding event can follow a run of quick foreign packets. */
  lemma FirstDecisiveUnique(events: seq<Event>, id: uint16, timeout: int, host: ByteOrder, i: nat)
    requires i < |events| && QuickForeignRun(events, i, id, timeout, host) && Decides(events[i], id, timeout, host)
    ensures FirstDecisive(events, id, timeout, host) == i
  {
  }

  /**
   * The loop as written in closed form: with a timeout of at least 0 it skips
   * every foreign packet that took less than the timeout, and the first other
   * event decides what it returns.
   */
  lemma {:induction false} AsWrittenClosedForm(events: seq<Event>, id: uint16, timeout: int, host: ByteOrder)
    requires timeout >= 0
    ensures var n := FirstDecisive(events, id, timeout, host);
      ReceiveAsWritten(events, id, timeout, host) == if n == |events| then Undetermined else Decision(events[n], id, host)
  {
    if events != [] && !Decides(events[0], id, timeout, host) {
      AsWrittenClosedForm(events[1..], id, timeout, host);
      var n := FirstDecisive(events, id, timeout, host);
      if n < |events| {
        assert events[n] == events[1..][n - 1];
      }
    }
  }

  /**
   * As written, the loop returns `None` exactly when, after a run of foreign
   * packets each quicker than the timeout, `select` reports nothing or a
   * foreign packet takes the whole timeout.
   */
  lemma AsWrittenTimedOutIff(events: seq<Event>, id: uint16, timeout: int, host: ByteOrder)
    requires timeout >= 0
    ensures ReceiveAsWritten(events, id, timeout, host) == TimedOut <==>
      (exists i :: 0 <= i < |events| && QuickForeignRun(events, i, id, timeout, host) &&
        (events[i].SelectTimeout? || (IsForeign(events[i], id, host) && events[i].spent >= timeout)))
  {
    AsWrittenClosedForm(events, id, timeout, host);
    if exists i :: 0 <= i < |events| && QuickForeignRun(events, i, id, timeout, host) &&
        (events[i].SelectTimeout? || (IsForeign(events[i], id, host) && events[i].spent >= timeout)) {
      var i :| 0 <= i < |events| && QuickForeignRun(events, i, id, timeout, host) &&
        (events[i].SelectTimeout? || (IsForeign(events[i], id, host) && events[i].spent >= timeout));
      FirstDecisiveUnique(events, id, timeout, host, i);
    }
  }

  /**
   * As written, the loop raises `struct.error` exactly when, after a run of
   * foreign packets each quicker than the timeout, a packet is too short for
   * the header, or carries the identifier but is too short for the timestamp.
   */
  lemma AsWrittenUnpackIff(events: seq<Event>, id: uint16, timeout: int, host: ByteOrder)
    requires timeout >= 0
    ensures ReceiveAsWritten(events, id, timeout, host) == Raised(Unpack) <==>
      (exists i :: 0 <= i < |events| && QuickForeignRun(events, i, id, timeout, host) &&
        events[i].Readable? && Inspect(events[i].packet, id, host) == Unreadable)
  {
    AsWrittenClosedForm(events, id, timeout, host);
    if exists i :: 0 <= i < |events| && QuickForeignRun(events, i, id, timeout, host) &&
        events[i].Readable? && Inspect(events[i].packet, id, host) == Unreadable {
      var i :| 0 <= i < |events| && QuickForeignRun(events, i, id, timeout, host) &&
        events[i].Readable? && Inspect(events[i].packet, id, host) == Unreadable;
      FirstDecisiveUnique(events, id, timeout, host, i);
    }
  }

  /** As written, the loop is still waiting at the end of the trace exactly when every event was a foreign packet quicker than the timeout. */
  lemma AsWrittenUndeterminedIff(events: seq<Event>, id: uint16, timeout: int, host: ByteOrder)
    requires timeout >= 0
    ensures ReceiveAsWritten(events, id, timeout, host) == Undetermined <==> QuickForeignRun(events, |events|, id, timeout, host)
  {
    AsWrittenClosedForm(events, id, timeout, host);
  }

  /** A concrete trace: two foreign packets of one tick each exhaust a two-tick timeout, yet the loop as written still accepts the third packet. */
  lemma AsWrittenResetsBudget()
    ensures var foreign := Readable(seq(28, _ => 0), 1);
      var answer := Readable(seq(36, i => if i == 24 || i == 25 then 1 else 0), 1);
      var trace := [foreign, foreign, answer];
      && Elapsed(trace[..2]) == 2
      && ReceiveAsWritten(trace, 0x0101, 2, LittleEndian) == Delay(seq(8, _ => 0))
      && Receive(trace, 0x0101, 2, LittleEndian) == TimedOut
  {
    var zeros := seq(28, _ => 0);
    var answerPkt := seq(36, i => if i == 24 || i == 25 then 1 else 0);
    assert zeros[24..26] == [0, 0];
    assert answerPkt[24..26] == [1, 1];
    assert answerPkt[28..36] == seq(8, _ => 0);
    var foreign, answer := Readable(zeros, 1), Readable(answerPkt, 1);
    assert Inspect(zeros, 0x0101, LittleEndian) == Foreign;
    assert Inspect(answerPkt, 0x0101, LittleEndian) == Answer(seq(8, _ => 0));
    var trace := [foreign, foreign, answer];
    assert trace[1..] == [foreign, answer] && trace[1..][1..] == [answer];
    assert trace[..2] == [foreign, foreign] && [foreign, foreign][1..] == [foreign];
    assert Elapsed([foreign]) == 1;
    assert ReceiveAsWritten([answer], 0x0101, 2, LittleEndian) == Delay(seq(8, _ => 0));
    assert ReceiveAsWritten([foreign, answer], 0x0101, 2, LittleEndian) == Delay(seq(8, _ => 0));
    assert ReceiveWithin([foreign, answer], 0x0101, 1, LittleEndian) == TimedOut;
  }

  // ---------------------------------------------------------------------------
  // The corrected loop

  /**
   * The corrected loop returns the timestamp of the first packet carrying the
   * identifier exactly when the foreign packets before it took, all together,
   * less than the timeout.
   */
  lemma ReceiveDelayIff(events: seq<Event>, id: uint16, timeout: int, host: ByteOrder, s: seq<byte>)
    requires timeout >= 0
    ensures Receive(events, id, timeout, host) == Delay(s) <==>
      (exists i :: 0 <= i < |events| && AnswersWith(events[i], id, host, s) &&
        (i == 0 || Elapsed(events[..i]) < timeout) && ForeignRun(events, i, id, host))
  {
    if Receive(events, id, timeout, host) == Delay(s) {
      var i := WithinDelaySound(events, id, timeout, host, s);
    }
    if exists i :: 0 <= i < |events| && AnswersWith(events[i], id, host, s) &&
        (i == 0 || Elapsed(events[..i]) < timeout) && ForeignRun(events, i, id, host) {
      var i :| 0 <= i < |events| && AnswersWith(events[i], id, host, s) &&
        (i == 0 || Elapsed(events[..i]) < timeout) && ForeignRun(events, i, id, host);
      WithinDelayComplete(events, id, timeout, host, s, i);
    }
  }

  lemma {:induction false} WithinDelaySound(events: seq<Event>, id: uint16, remaining: int, host: ByteOrder, s: seq<byte>)
    returns (i: nat)
    requires ReceiveWithin(events, id, remaining, host) == Delay(s)
    ensures i < |events| && AnswersWith(events[i], id, host, s)
    ensures (i == 0 || Elapsed(events[..i]) < remaining) && ForeignRun(events, i, id, host)
    decreases |events|
  {
    if AnswersWith(events[0], id, host, s) {
      i := 0;
    } else {
      assert IsForeign(events[0], id, host);
      var rest, spent := events[1..], events[0].spent;
      assert ReceiveWithin(rest, id, remaining - spent, host) == Delay(s);
      var k := WithinDelaySound(rest, id, remaining - spent, host, s);
      i := k + 1;
      assert events[i] == rest[k];
      assert events[..i][1..] == rest[..k];
      if k == 0 {
        assert rest[..k] == [];
      }
      forall j | 0 <= j < i
        ensures IsForeign(events[j], id, host)
      {
        if j > 0 {
          assert events[j] == rest[j - 1];
        }
      }
    }
  }

  lemma {:induction false} WithinDelayComplete(events: seq<Event>, id: uint16, remaining: int, host: ByteOrder, s: seq<byte>, i: nat)
    requires remaining >= 0 && i < |events| && AnswersWith(events[i], id, host, s)
    requires (i == 0 || Elapsed(events[..i]) < remaining) && ForeignRun(events, i, id, host)
    ensures ReceiveWithin(events, id, remaining, host) == Delay(s)
  {
    if i > 0 {
      assert IsForeign(events[0], id, host);
      var rest, spent := events[1..], events[0].spent;
      assert events[..i][1..] == rest[..i - 1];
      forall j | 0 <= j < i - 1
        ensures IsForeign(rest[j], id, host)
      {
        assert rest[j] == events[j + 1];
      }
      if i - 1 == 0 {
        assert rest[..0] == [];
      }
      WithinDelayComplete(rest, id, remaining - spent, host, s, i - 1);
    }
  }

  /** Every reply the corrected loop accepts is also accepted by the loop as written. */
  lemma {:induction false} BudgetOnlyShortens(events: seq<Event>, id: uint16, remaining: int, timeout: int, host: ByteOrder)
    requires 0 <= remaining <= timeout
    requires ReceiveWithin(events, id, remaining, host).Delay?
    ensures ReceiveAsWritten(events, id, timeout, host) == ReceiveWithin(events, id, remaining, host)
    decreases |events|
  {
    if events[0].Readable? && Inspect(events[0].packet, id, host) == Foreign {
      BudgetOnlyShortens(events[1..], id, remaining - events[0].spent, timeout, host);
    }
  }

  // ---------------------------------------------------------------------------
  // Matching on the identifier alone

  /** Two packets with the same length, identifier bytes and timestamp bytes are judged alike: type, code, checksum and sequence are ignored. */
  lemma OnlyIdentifierMatters(p: seq<byte>, q: seq<byte>, id: uint16, host: ByteOrder)
    requires |p| == |q|
    requires |p| >= 28 ==> p[24..26] == q[24..26]
    requires |p| >= 36 ==> p[28..36] == q[28..36]
    ensures Inspect(p, id, host) == Inspect(q, id, host)
  {
  }

  /**
   * An echo request carrying the prober's own identifier, looped back with any
   * IPv4 header in front, is taken as the reply: its type 8 is not checked.
   */
  lemma OwnRequestAccepted(ipHeader: seq<byte>, id: uint16, stamp: seq<byte>, host: ByteOrder, timeout: nat, spent: nat)
    requires |ipHeader| == IpHeaderLength && |stamp| == StampLength
    ensures var pkt := ipHeader + EncodeRequest(id, stamp, host);
      && DecodeHeader(pkt, host).value.icmpType == EchoRequestType
      && Receive([Readable(pkt, spent)], id, timeout, host) == Delay(stamp)
      && ReceiveAsWritten([Readable(pkt, spent)], id, timeout, host) == Delay(stamp)
  {
    RequestRoundTrip(ipHeader, id, stamp, host);
    var pkt := ipHeader + EncodeRequest(id, stamp, host);
    InspectFollowsDecoder(pkt, id, host);
  }
}

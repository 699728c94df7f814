/**
 * `Pinger.ping_once`, `Pinger.ping` and `Pinger.get_loss`: one probe per
 * call, and the probe cycle as a fold over the outcomes of its probes.
 *
 * Sockets, name resolution and the clock are the environment: a probe is
 * given whether the host name resolves, the process id, the 8 timestamp
 * bytes and the trace of events its wait loop sees.  An exception that is not
 * `socket.gaierror` escapes `ping`, which the model reports as `None`.
 */
module Pinger {
  import opened Bytes
  import opened Outcomes
  import opened Icmp
  import opened WaitLoop

  /** `os.getpid() & 0xFFFF`: the low 16 bits of the process id. */
  function Identifier(pid: nat): (id: uint16)
    ensures (pid - id) % 0x1_0000 == 0
  {
    pid % 0x1_0000
  }

  /** Processes whose ids differ by a multiple of 65536 share an identifier and so accept each other's replies. */
  lemma IdentifierCollision(pid: nat, k: nat)
    ensures Identifier(pid + 0x1_0000 * k) == Identifier(pid)
  {
  }

  /** What one probe contributes to the cycle. */
  datatype ProbeOutcome =
    | Reply              // `ping_once` returned a delay
    | NoReply            // `ping_once` returned None
    | ResolutionFailure  // `gethostbyname` raised `socket.gaierror`
    | Crash              // any other exception escaped `ping_once`

  /** The packet a probe sent (none when the name did not resolve) and its outcome (none while the trace leaves it open). */
  datatype Probe = Probe(sent: Option<seq<byte>>, outcome: Option<ProbeOutcome>)

  /**
   * `ping_once`: derive the identifier, resolve the host, send the echo
   * request and wait for the reply with `receive_icmp` as written, whose
   * budget is reset at every iteration.
   */
  function ProbeOnce(resolves: bool, pid: nat, stamp: seq<byte>, host: ByteOrder, timeout: int, events: seq<Event>): (p: Probe)
    requires |stamp| == StampLength
    ensures p.outcome == Some(ResolutionFailure) <==> !resolves
    ensures p.sent.Some? <==> resolves
    ensures p.sent.Some? ==> |p.sent.value| == HeaderLength + StampLength + FillerLength
    ensures p.sent.Some? ==> UnpackU16(p.sent.value[4..6], host) == Identifier(pid) && UnpackI16(p.sent.value[6..8], host) == 1
    ensures p.outcome == Some(Reply) <==> resolves && ReceiveAsWritten(events, Identifier(pid), timeout, host).Delay?
  {
    if !resolves then Probe(None, Some(ResolutionFailure))
    else
      var id := Identifier(pid);
      var outcome := match ReceiveAsWritten(events, id, timeout, host)
        case Delay(_) => Some(Reply)
        case TimedOut => Some(NoReply)
        case Raised(_) => Some(Crash)
        case Undetermined => None;
      Probe(Some(EncodeRequest(id, stamp, host)), outcome)
  }

  /**
   * The identifier depends on the process only, so the probes a process sends
   * to different hosts at once share it: a probe takes the echo reply to
   * another probe of the same process (which repeats that request from byte 4
   * on) as its own, and computes its delay from the other probe's send time.
   */
  lemma RepliesCrossProbes(pid: nat, other: seq<byte>, stamp: seq<byte>, host: ByteOrder, timeout: nat,
                           ipHeader: seq<byte>, reply: seq<byte>, spent: nat)
    requires |other| == StampLength && |stamp| == StampLength && |ipHeader| == IpHeaderLength
    requires var req := EncodeRequest(Identifier(pid), other, host); |reply| == |req| && reply[4..] == req[4..]
    ensures var events := [Readable(ipHeader + reply, spent)];
      && ReceiveAsWritten(events, Identifier(pid), timeout, host) == Delay(other)
      && ProbeOnce(true, pid, stamp, host, timeout, events).outcome == Some(Reply)
  {
    var id := Identifier(pid);
    var req := EncodeRequest(id, other, host);
    SameTailSameVerdict(ipHeader, reply, req, id, host);
    OwnRequestAccepted(ipHeader, id, other, host, timeout, spent);
  }

  /** Two packets behind the same IPv4 header that agree from byte 4 of the ICMP message on are judged alike. */
  lemma SameTailSameVerdict(ipHeader: seq<byte>, a: seq<byte>, b: seq<byte>, id: uint16, host: ByteOrder)
    requires |ipHeader| == IpHeaderLength && |a| == |b| && |a| >= 16 && a[4..] == b[4..]
    ensures Inspect(ipHeader + a, id, host) == Inspect(ipHeader + b, id, host)
  {
    var p, q := ipHeader + a, ipHeader + b;
    assert p[24..26] == a[4..6] == b[4..6] == q[24..26];
    assert p[28..36] == a[8..16] == b[8..16] == q[28..36];
    OnlyIdentifierMatters(p, q, id, host);
  }

  // ---------------------------------------------------------------------------
  // get_loss

  /** `get_loss`: the percentage of probes without a reply, `None` when nothing was sent. */
  function GetLoss(sent: int, rcvd: int): (r: Option<real>)
    ensures r.Some? <==> sent > 0
    ensures r.Some? ==> r.value * sent as real == 100.0 * (sent - rcvd) as real
    ensures r.Some? && 0 <= rcvd <= sent ==> 0.0 <= r.value <= 100.0
    ensures r.Some? && 0 <= rcvd <= sent ==> (r.value == 0.0 <==> rcvd == sent)
    ensures r.Some? && 0 <= rcvd <= sent ==> (r.value == 100.0 <==> rcvd == 0)
  {
    if sent > 0 then
      var loss := (sent - rcvd) as real / sent as real * 100.0;
      LossBounds(sent, rcvd);
      Some(loss)
    else None
  }

  lemma LossBounds(sent: int, rcvd: int)
    requires sent > 0
    ensures var loss := (sent - rcvd) as real / sent as real * 100.0;
      && loss * sent as real == 100.0 * (sent - rcvd) as real
      && (0 <= rcvd <= sent ==> 0.0 <= loss <= 100.0)
      && (loss == 0.0 <==> rcvd == sent)
      && (loss == 100.0 <==> rcvd == 0)
  {
    var f := (sent - rcvd) as real / sent as real;
    assert f * sent as real == (sent - rcvd) as real;
    if 0 <= rcvd <= sent {
      assert 0.0 <= f <= 1.0;
    }
  }

  // ---------------------------------------------------------------------------
  // ping

  datatype Status = Success | Error | Failed

  /** The dictionary `ping` returns; the loss is kept exact rather than formatted with `"{:.2f}%"`. */
  datatype PingReport = PingReport(status: Status, time: string, sent: nat, rcvd: nat, loss: real)

  /** The counters at the end of the `for` loop: attempts, replies, and whether `break` ended it. */
  datatype Tally = Tally(sent: nat, rcvd: nat, broke: bool)

  /**
   * The `for` loop over the outcomes of its iterations: every iteration counts
   * an attempt first; a resolution failure breaks the loop; a reply is
   * counted and followed by `time.sleep(wait / 1000)`, which raises for a
   * negative wait; any other exception escapes (`None`).
   */
  function Probes(os: seq<ProbeOutcome>, wait: int): (t: Option<Tally>)
    ensures t.Some? ==> t.value.rcvd <= t.value.sent <= |os|
    ensures t.Some? ==> (t.value.sent == |os| || t.value.broke)
    ensures t.Some? && os != [] ==> t.value.sent >= 1
  {
    if os == [] then Some(Tally(0, 0, false))
    else
      match os[0]
      case ResolutionFailure => Some(Tally(1, 0, true))
      case Crash => None
      case NoReply =>
        (match Probes(os[1..], wait)
         case None => None
         case Some(t) => Some(Tally(t.sent + 1, t.rcvd, t.broke)))
      case Reply =>
        if wait < 0 then None
        else
          match Probes(os[1..], wait)
          case None => None
          case Some(t) => Some(Tally(t.sent + 1, t.rcvd + 1, t.broke))
  }

  /** The final status: `'Failed'` when nothing came back (overriding `'Error'`), else `'Error'` after a break, else `'Success'`. */
  function FinalStatus(t: Tally): Status
  {
    if t.rcvd == 0 then Failed else if t.broke then Error else Success
  }

  /**
   * `Pinger.ping` over the outcomes of its probes, one per iteration (the
   * environment must answer every iteration the loop may run).  `None` is an
   * exception escaping: a crashed probe, a reply with a negative wait, or
   * `count <= 0`, for which `get_loss` returns None and the loss format raises.
   */
  function Ping(count: int, wait: int, outcomes: seq<ProbeOutcome>, now: string): (r: Option<PingReport>)
    requires count <= |outcomes|
    ensures r.Some? ==> 1 <= r.value.sent <= count && r.value.rcvd <= r.value.sent
    ensures r.Some? ==> (r.value.status == Failed <==> r.value.rcvd == 0)
    ensures r.Some? ==> (r.value.status == Success ==> r.value.sent == count)
    ensures r.Some? ==> GetLoss(r.value.sent, r.value.rcvd) == Some(r.value.loss)
  {
    if count <= 0 then None
    else
      match Probes(outcomes[..count], wait)
      case None => None
      case Some(t) =>
        var loss := GetLoss(t.sent, t.rcvd);
        Some(PingReport(FinalStatus(t), now, t.sent, t.rcvd, loss.value))
  }

  // ---------------------------------------------------------------------------
  // A closed form of the fold

  /** An outcome that stops the loop: a resolution failure, or an exception. */
  predicate Stops(o: ProbeOutcome, wait: int)
  {
    o == ResolutionFailure || o == Crash || (o == Reply && wait < 0)
  }

  /** The index of the first outcome that stops the loop, or the length when none does. */
  function FirstStop(os: seq<ProbeOutcome>, wait: int): (n: nat)
    ensures n <= |os|
    ensures n < |os| ==> Stops(os[n], wait)
    ensures forall j :: 0 <= j < n ==> !Stops(os[j], wait)
  {
    if os == [] then 0 else if Stops(os[0], wait) then 0 else 1 + FirstStop(os[1..], wait)
  }

  /** The number of replies among some outcomes. */
  function Replies(os: seq<ProbeOutcome>): nat
  {
    if os == [] then 0 else (if os[0] == Reply then 1 else 0) + Replies(os[1..])
  }

  lemma {:induction false} RepliesAtMost(os: seq<ProbeOutcome>)
    ensures Replies(os) <= |os|
  {
    if os != [] {
      RepliesAtMost(os[1..]);
    }
  }

  /**
   * The loop runs up to the first outcome that stops it: the loop raises if
   * that outcome is an exception; otherwise it counts that attempt too when it
   * is a resolution failure, and the replies before it.
   */
  lemma {:induction false} ProbesClosedForm(os: seq<ProbeOutcome>, wait: int)
    ensures var n := FirstStop(os, wait);
      && (Probes(os, wait).None? <==> n < |os| && os[n] != ResolutionFailure)
      && (Probes(os, wait).Some? ==>
            && Probes(os, wait).value.broke == (n < |os|)
            && Probes(os, wait).value.sent == (if n < |os| then n + 1 else n)
            && Probes(os, wait).value.rcvd == Replies(os[..n]))
  {
    if os != [] && !Stops(os[0], wait) {
      ProbesClosedForm(os[1..], wait);
      var n := FirstStop(os, wait);
      assert os[..n][1..] == os[1..][..n - 1];
    } else if os != [] {
      assert os[..0] == [];
    }
  }

  /**
   * `ping` in closed form: with `count >= 1` it reports unless an exception
   * stops the loop; it counts the attempts up to and including a resolution
   * failure and the replies before it, and reports `'Failed'` when there were
   * none, `'Error'` after a resolution failure, and `'Success'` otherwise, even
   * with some probes lost.
   */
  lemma PingClosedForm(count: int, wait: int, outcomes: seq<ProbeOutcome>, now: string)
    requires 1 <= count <= |outcomes|
    ensures var os := outcomes[..count]; var n := FirstStop(os, wait);
      && (Ping(count, wait, outcomes, now).None? <==> n < count && os[n] != ResolutionFailure)
      && (Ping(count, wait, outcomes, now).Some? ==>
            var r := Ping(count, wait, outcomes, now).value;
            && r.sent == (if n < count then n + 1 else count)
            && r.rcvd == Replies(os[..n])
            && r.status == (if r.rcvd == 0 then Failed else if n < count then Error else Success)
            && r.time == now)
  {
    ProbesClosedForm(outcomes[..count], wait);
  }

  /** Partial loss still reports `'Success'`. */
  lemma PartialLossIsSuccess(now: string)
    ensures Ping(2, 200, [Reply, NoReply], now) == Some(PingReport(Success, now, 2, 1, 50.0))
  {
    assert [Reply, NoReply][..2] == [Reply, NoReply];
    assert [Reply, NoReply][1..] == [NoReply];
    assert [NoReply][1..] == [];
  }

  /** A resolution failure on the first probe reports `'Failed'`, not `'Error'`, with that attempt counted. */
  lemma UnresolvableHostFails(now: string)
    ensures Ping(5, 200, [ResolutionFailure, Reply, Reply, Reply, Reply], now) == Some(PingReport(Failed, now, 1, 0, 100.0))
  {
    var os := [ResolutionFailure, Reply, Reply, Reply, Reply];
    assert os[..5] == os;
  }

  /** With no probes the loss cannot be formatted and `ping` raises. */
  lemma NoProbesRaises(wait: int, outcomes: seq<ProbeOutcome>, now: string)
    ensures Ping(0, wait, outcomes, now).None?
  {
  }
}

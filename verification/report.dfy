/**
 * The deterministic parts of `CheckIp` and `create_ip_list` in check_ip.py:
 * the CSV row and log block `run_ping` writes for one host, the per-IP
 * totals of `sum_check_result`, and the filtering of the host-list file.
 *
 * Files, pandas and the `mtr` subprocess are the environment: `run_ping` is
 * given the ping report (or `None` when `ping_check` caught an exception) and
 * what `mtr_check` returned, and yields the row and the lines it appends.
 */
module CheckIp {
  import opened Outcomes
  import opened Text
  import opened Pinger

  // ---------------------------------------------------------------------------
  // run_ping

  /** What `mtr_check` returned: its exit code and captured streams, or `None` after an exception (or a `sys.exit`). */
  datatype MtrRun = MtrExited(code: int, stdout: string, stderr: string) | MtrRaised

  /** `[Time, ip, Sent, Rcvd, Loss]`, the loss kept exact. */
  datatype CsvRow = CsvRow(time: string, ip: string, sent: nat, rcvd: nat, loss: real)

  /**
   * What one call of `run_ping` leaves behind: the CSV row, whether `mtr` ran,
   * the lines appended to the log, and the error line printed to the console.
   */
  datatype RunRecord = RunRecord(row: Option<CsvRow>, mtrInvoked: bool, log: seq<string>, console: seq<string>)

  /** `print(self.dt, '\t', ip, ' 执行Mtr的结果: ')`: the arguments joined by single spaces. */
  function Banner(dt: string, ip: string): string
  {
    dt + " \t " + ip + "  \U{6267}\U{884C}Mtr\U{7684}\U{7ED3}\U{679C}: "
  }

  /** `print(self.dt, '\t', ip, ' 执行Mtr出错...')`, on the console. */
  function MtrErrorLine(dt: string, ip: string): string
  {
    dt + " \t " + ip + "  \U{6267}\U{884C}Mtr\U{51FA}\U{9519}..."
  }

  /** The block written after a successful `mtr`: a rule, the banner, every non-empty captured stream, a rule. */
  function MtrBlock(dt: string, ip: string, stdout: string, stderr: string): seq<string>
  {
    [Rule(), Banner(dt, ip)] + NonEmpty(Captured(stdout, stderr)) + [Rule()]
  }

  /**
   * `CheckIp.run_ping` for one host.  A missing ping report writes no row and
   * then fails on `None['Status']`, so `mtr` never runs.  Otherwise `mtr` runs
   * exactly when the status is not `'Success'`; exit code 0 appends the block,
   * any other code appends only a rule and prints the error line on the
   * console, and an exception appends nothing.
   */
  function RunPing(dt: string, ip: string, ping: Option<PingReport>, mtr: MtrRun): (r: RunRecord)
    ensures r.row.Some? <==> ping.Some?
    ensures r.row.Some? ==> r.row.value == CsvRow(ping.value.time, ip, ping.value.sent, ping.value.rcvd, ping.value.loss)
    ensures r.mtrInvoked <==> ping.Some? && ping.value.status != Status.Success
    ensures r.log != [] ==> r.mtrInvoked && mtr.MtrExited? && r.log[0] == Rule()
    ensures r.mtrInvoked && mtr.MtrExited? && mtr.code != 0 ==> r.log == [Rule()]
    ensures r.mtrInvoked && mtr.MtrExited? && mtr.code == 0 ==>
      && |r.log| >= 3 && r.log[|r.log| - 1] == Rule() && Contains(r.log[1], ip)
      && r.log[2..|r.log| - 1] == NonEmpty(Captured(mtr.stdout, mtr.stderr))
    ensures r.console != [] <==> r.mtrInvoked && mtr.MtrExited? && mtr.code != 0
    ensures r.console != [] ==> r.console == [MtrErrorLine(dt, ip)]
  {
    match ping
    case None => RunRecord(None, false, [], [])
    case Some(p) =>
      var row := Some(CsvRow(p.time, ip, p.sent, p.rcvd, p.loss));
      if p.status == Status.Success then RunRecord(row, false, [], [])
      else
        var log := match mtr
          case MtrRaised => []
          case MtrExited(code, out, err) => if code == 0 then MtrBlock(dt, ip, out, err) else [Rule()];
        assert mtr.MtrExited? && mtr.code == 0 ==> OccursAt(log[1], ip, |dt| + 3);
        var console := if mtr.MtrExited? && mtr.code != 0 then [MtrErrorLine(dt, ip)] else [];
        RunRecord(row, true, log, console)
  }

  /**
   * A cycle with no reply always escalates; a cycle in which every attempt was
   * answered never does.  In between, the status decides: a cycle cut short by
   * a resolution failure escalates, one that only lost some probes does not.
   */
  lemma EscalationFollowsStatus(dt: string, ip: string, count: int, wait: int, outcomes: seq<Pinger.ProbeOutcome>, now: string, mtr: MtrRun)
    requires 1 <= count <= |outcomes|
    requires Ping(count, wait, outcomes, now).Some?
    ensures var p := Ping(count, wait, outcomes, now).value;
      && (p.rcvd == 0 ==> RunPing(dt, ip, Some(p), mtr).mtrInvoked)
      && (p.rcvd == p.sent ==> !RunPing(dt, ip, Some(p), mtr).mtrInvoked)
  {
    var os := outcomes[..count];
    PingClosedForm(count, wait, outcomes, now);
    RepliesAtMost(os[..FirstStop(os, wait)]);
  }

  // ---------------------------------------------------------------------------
  // sum_check_result

  /** A row of the record file as pandas reads it: IP, Sent, Rcvd. */
  datatype RecordRow = RecordRow(ip: string, sent: nat, rcvd: nat)

  /** One summary row: the totals and the loss `(sent - rcvd) / sent * 100`, kept exact. */
  datatype Totals = Totals(sent: nat, rcvd: nat, loss: real)

  /** `DataFrame.head()` without an argument keeps five rows. */
  const HeadRows: nat := 5

  /** The IPs present in the file: `set(df.IP.values)`. */
  function Ips(rows: seq<RecordRow>): (ips: set<string>)
    ensures forall r :: r in rows ==> r.ip in ips
  {
    if rows == [] then {} else {rows[0].ip} + Ips(rows[1..])
  }

  /**
   * `df.loc[df["IP"] == ip]`: the rows of one IP in file order.  Every row of
   * the IP is kept as often as it occurs and no other row is, and extending
   * the file by a row extends the selection by that row when it is the IP's.
   */
  function RowsOf(rows: seq<RecordRow>, ip: string): (g: seq<RecordRow>)
    ensures |g| <= |rows|
    ensures forall r :: r in g <==> r in rows && r.ip == ip
    ensures forall r {:trigger multiset(g)[r]} :: multiset(g)[r] == if r.ip == ip then multiset(rows)[r] else 0
  {
    if rows == [] then []
    else
      assert rows == [rows[0]] + rows[1..];
      (if rows[0].ip == ip then [rows[0]] else []) + RowsOf(rows[1..], ip)
  }

  /** An IP is summarised exactly when the file holds a row for it. */
  lemma {:induction false} IpsAreRecorded(rows: seq<RecordRow>, ip: string)
    ensures ip in Ips(rows) <==> RowsOf(rows, ip) != []
  {
    if rows != [] {
      IpsAreRecorded(rows[1..], ip);
    }
  }

  /** `DataFrame.head(n)`. */
  function Head(g: seq<RecordRow>, n: nat): (h: seq<RecordRow>)
    ensures |h| == if |g| < n then |g| else n
    ensures h <= g
  {
    if |g| < n then g else g[..n]
  }

  function SentOf(g: seq<RecordRow>): nat
  {
    if g == [] then 0 else g[0].sent + SentOf(g[1..])
  }

  function RcvdOf(g: seq<RecordRow>): nat
  {
    if g == [] then 0 else g[0].rcvd + RcvdOf(g[1..])
  }

  /** The totals of a group of rows; a zero sent total makes the loss division raise. */
  function TotalsOf(g: seq<RecordRow>): (t: Option<Totals>)
    ensures t.Some? <==> SentOf(g) > 0
    ensures t.Some? ==> t.value.sent == SentOf(g) && t.value.rcvd == RcvdOf(g) && GetLoss(SentOf(g), RcvdOf(g)) == Some(t.value.loss)
  {
    match GetLoss(SentOf(g), RcvdOf(g))
    case None => None
    case Some(loss) => Some(Totals(SentOf(g), RcvdOf(g), loss))
  }

  /** The rows of `ip` that are added up: its first five (`.head()`), or all of them. */
  function Counted(rows: seq<RecordRow>, ip: string, headOnly: bool): seq<RecordRow>
  {
    if headOnly then Head(RowsOf(rows, ip), HeadRows) else RowsOf(rows, ip)
  }

  predicate EveryIpSent(rows: seq<RecordRow>, headOnly: bool)
  {
    forall ip :: ip in Ips(rows) ==> SentOf(Counted(rows, ip, headOnly)) > 0
  }

  /**
   * One totals row per IP of the file.  `None` is the `ZeroDivisionError` of an
   * IP whose counted rows sent nothing, after which the summary file is left
   * incomplete.
   */
  function Summarise(rows: seq<RecordRow>, headOnly: bool): (r: Option<map<string, Totals>>)
    ensures r.Some? <==> EveryIpSent(rows, headOnly)
    ensures r.Some? ==> r.value.Keys == Ips(rows)
    ensures r.Some? ==> forall ip :: ip in r.value ==> Some(r.value[ip]) == TotalsOf(Counted(rows, ip, headOnly))
  {
    if EveryIpSent(rows, headOnly) then
      Some(map ip | ip in Ips(rows) :: TotalsOf(Counted(rows, ip, headOnly)).value)
    else None
  }

  /**
   * `sum_check_result` as written: each IP's totals come from its first five
   * rows only, so they never exceed the totals over all of its rows.
   */
  function SummaryAsWritten(rows: seq<RecordRow>): (r: Option<map<string, Totals>>)
    ensures r.Some? ==> r.value.Keys == Ips(rows)
    ensures r.Some? ==> forall ip :: ip in r.value ==>
      r.value[ip].sent <= SentOf(RowsOf(rows, ip)) && r.value[ip].rcvd <= RcvdOf(RowsOf(rows, ip))
  {
    HeadUndercounts(rows);
    Summarise(rows, true)
  }

  /** The summary as intended: each IP's totals over all of its rows. */
  function Summary(rows: seq<RecordRow>): (r: Option<map<string, Totals>>)
    ensures r.Some? ==> forall ip :: ip in Ips(rows) ==> SentOf(RowsOf(rows, ip)) > 0
    ensures (forall ip :: ip in Ips(rows) ==> SentOf(RowsOf(rows, ip)) > 0) ==> r.Some?
    ensures r.Some? ==> r.value.Keys == Ips(rows)
    ensures r.Some? ==> forall ip :: ip in r.value ==>
      r.value[ip].sent == SentOf(RowsOf(rows, ip)) && r.value[ip].rcvd == RcvdOf(RowsOf(rows, ip))
  {
    AllRowsCounted(rows);
    Summarise(rows, false)
  }

  lemma AllRowsCounted(rows: seq<RecordRow>)
    ensures EveryIpSent(rows, false) ==> forall ip :: ip in Ips(rows) ==> SentOf(RowsOf(rows, ip)) > 0
    ensures (forall ip :: ip in Ips(rows) ==> SentOf(RowsOf(rows, ip)) > 0) ==> EveryIpSent(rows, false)
  {
    if EveryIpSent(rows, false) {
      forall ip | ip in Ips(rows) ensures SentOf(RowsOf(rows, ip)) > 0 {
        assert SentOf(Counted(rows, ip, false)) > 0;
      }
    }
    if forall ip :: ip in Ips(rows) ==> SentOf(RowsOf(rows, ip)) > 0 {
      forall ip | ip in Ips(rows) ensures SentOf(Counted(rows, ip, false)) > 0 {
        assert SentOf(RowsOf(rows, ip)) > 0;
      }
    }
  }

  /** The first rows of a group send and receive no more than the whole group. */
  lemma HeadSumsAtMost(g: seq<RecordRow>, n: nat)
    ensures SentOf(Head(g, n)) <= SentOf(g) && RcvdOf(Head(g, n)) <= RcvdOf(g)
  {
    if n <= |g| {
      assert g == g[..n] + g[n..];
      SumsAppend(g[..n], g[n..]);
    }
  }

  lemma HeadUndercounts(rows: seq<RecordRow>)
    ensures forall ip :: SentOf(Counted(rows, ip, true)) <= SentOf(RowsOf(rows, ip))
    ensures forall ip :: RcvdOf(Counted(rows, ip, true)) <= RcvdOf(RowsOf(rows, ip))
  {
    forall ip
      ensures SentOf(Counted(rows, ip, true)) <= SentOf(RowsOf(rows, ip))
      ensures RcvdOf(Counted(rows, ip, true)) <= RcvdOf(RowsOf(rows, ip))
    {
      HeadSumsAtMost(RowsOf(rows, ip), HeadRows);
    }
  }

  lemma {:induction false} RowsOfAppend(a: seq<RecordRow>, b: seq<RecordRow>, ip: string)
    ensures RowsOf(a + b, ip) == RowsOf(a, ip) + RowsOf(b, ip)
  {
    if a != [] {
      RowsOfAppend(a[1..], b, ip);
      assert (a + b)[1..] == a[1..] + b;
    } else {
      assert a + b == b;
    }
  }

  lemma {:induction false} SumsAppend(a: seq<RecordRow>, b: seq<RecordRow>)
    ensures SentOf(a + b) == SentOf(a) + SentOf(b) && RcvdOf(a + b) == RcvdOf(a) + RcvdOf(b)
  {
    if a != [] {
      SumsAppend(a[1..], b);
      assert (a + b)[1..] == a[1..] + b;
    } else {
      assert a + b == b;
    }
  }

  lemma {:induction false} RcvdBelowSent(g: seq<RecordRow>)
    requires forall r :: r in g ==> r.rcvd <= r.sent
    ensures RcvdOf(g) <= SentOf(g)
  {
    if g != [] {
      RcvdBelowSent(g[1..]);
    }
  }

  /**
   * Every summarised loss lies in [0, 100] when every row received at most
   * what it sent; it is 0 exactly when the counted rows lost nothing.
   */
  lemma SummaryLossBounds(rows: seq<RecordRow>, ip: string)
    requires forall r :: r in rows ==> r.rcvd <= r.sent
    requires SummaryAsWritten(rows).Some? && ip in SummaryAsWritten(rows).value
    ensures var t := SummaryAsWritten(rows).value[ip];
      0.0 <= t.loss <= 100.0 && (t.loss == 0.0 <==> t.rcvd == t.sent)
  {
    var g := Head(RowsOf(rows, ip), HeadRows);
    RcvdBelowSent(g);
  }

  /** A sixth row for an IP that already has five changes nothing in its totals. */
  lemma SixthRowIgnored(rows: seq<RecordRow>, extra: RecordRow)
    requires |RowsOf(rows, extra.ip)| >= HeadRows
    ensures Head(RowsOf(rows + [extra], extra.ip), HeadRows) == Head(RowsOf(rows, extra.ip), HeadRows)
  {
    RowsOfAppend(rows, [extra], extra.ip);
  }

  lemma {:induction false} RowsOfUniform(rows: seq<RecordRow>, ip: string)
    requires forall r :: r in rows ==> r.ip == ip
    ensures RowsOf(rows, ip) == rows
  {
    if rows != [] {
      RowsOfUniform(rows[1..], ip);
    }
  }

  /** Five rows of `ip` that each sent one probe and got no reply. */
  function FiveLost(ip: string): (g: seq<RecordRow>)
    ensures |g| == HeadRows && forall r :: r in g ==> r == RecordRow(ip, 1, 0)
  {
    seq(HeadRows, _ => RecordRow(ip, 1, 0))
  }

  lemma FiveLostTotals(ip: string)
    ensures SentOf(FiveLost(ip)) == 5 && RcvdOf(FiveLost(ip)) == 0
  {
    UniformSums(FiveLost(ip), RecordRow(ip, 1, 0));
  }

  /** Rows that are all the same row `x` add up to `x`'s counts times their number. */
  lemma {:induction false} UniformSums(g: seq<RecordRow>, x: RecordRow)
    requires forall r :: r in g ==> r == x
    ensures SentOf(g) == |g| * x.sent && RcvdOf(g) == |g| * x.rcvd
  {
    if g != [] {
      assert g[0] in g;
      assert forall r :: r in g[1..] ==> r in g;
      UniformSums(g[1..], x);
      assert |g| * x.sent == (|g| - 1) * x.sent + x.sent;
      assert |g| * x.rcvd == (|g| - 1) * x.rcvd + x.rcvd;
    }
  }

  /** When every row belongs to one IP, that IP is the only one summarised. */
  lemma SingleIp(rows: seq<RecordRow>, ip: string)
    requires rows != []
    requires forall r :: r in rows ==> r.ip == ip
    ensures Ips(rows) == {ip}
  {
    forall x | x in Ips(rows)
      ensures x == ip
    {
      IpsAreRecorded(rows, x);
      var g := RowsOf(rows, x);
      assert g[0] in g;
    }
    assert rows[0] in rows;
  }

  lemma SixthAnsweredTotals(ip: string, sent: nat)
    requires sent > 0
    ensures var rows := FiveLost(ip) + [RecordRow(ip, sent, sent)];
      && TotalsOf(Counted(rows, ip, true)) == Some(Totals(5, 0, 100.0))
      && TotalsOf(Counted(rows, ip, false)).Some?
      && TotalsOf(Counted(rows, ip, false)).value.sent == 5 + sent
      && TotalsOf(Counted(rows, ip, false)).value.rcvd == sent
  {
    var five := FiveLost(ip);
    var rows := five + [RecordRow(ip, sent, sent)];
    RowsOfUniform(rows, ip);
    assert rows[..HeadRows] == five;
    FiveLostTotals(ip);
    SumsAppend(five, [RecordRow(ip, sent, sent)]);
    assert SentOf([RecordRow(ip, sent, sent)]) == sent && RcvdOf([RecordRow(ip, sent, sent)]) == sent;
  }

  /**
   * The defect: an IP whose first five rows lost everything and whose sixth
   * was answered in full.  The summary as written still reports 100% loss and
   * no reply for it; the intended one counts the sixth row's replies.
   */
  lemma HeadDropsRows(ip: string, sent: nat)
    requires sent > 0
    ensures var rows := FiveLost(ip) + [RecordRow(ip, sent, sent)];
      && SummaryAsWritten(rows).Some? && SummaryAsWritten(rows).value.Keys == {ip}
      && SummaryAsWritten(rows).value[ip] == Totals(5, 0, 100.0)
      && Summary(rows).Some? && Summary(rows).value[ip].rcvd == sent
      && Summary(rows).value[ip].loss < 100.0
  {
    var rows := FiveLost(ip) + [RecordRow(ip, sent, sent)];
    SingleIp(rows, ip);
    SixthAnsweredTotals(ip, sent);
  }

  /** The corrected summary accumulates: appending a row adds its counts to its IP's totals. */
  lemma SummaryAccumulates(rows: seq<RecordRow>, extra: RecordRow)
    ensures SentOf(RowsOf(rows + [extra], extra.ip)) == SentOf(RowsOf(rows, extra.ip)) + extra.sent
    ensures RcvdOf(RowsOf(rows + [extra], extra.ip)) == RcvdOf(RowsOf(rows, extra.ip)) + extra.rcvd
  {
    RowsOfAppend(rows, [extra], extra.ip);
    SumsAppend(RowsOf(rows, extra.ip), [extra]);
    assert RowsOf([extra], extra.ip) == [extra];
  }

  /** Both summaries agree while no IP has more than five rows. */
  lemma SummariesAgreeOnShortRecords(rows: seq<RecordRow>)
    requires forall ip :: ip in Ips(rows) ==> |RowsOf(rows, ip)| <= HeadRows
    ensures SummaryAsWritten(rows) == Summary(rows)
  {
    forall ip | ip in Ips(rows)
      ensures Counted(rows, ip, true) == Counted(rows, ip, false)
    {
      var g := RowsOf(rows, ip);
      if |g| == HeadRows {
        assert g[..HeadRows] == g;
      }
    }
    assert EveryIpSent(rows, true) == EveryIpSent(rows, false);
    var r1, r2 := Summarise(rows, true), Summarise(rows, false);
    if r1.Some? {
      assert r1.value.Keys == r2.value.Keys;
      forall ip | ip in r1.value
        ensures r1.value[ip] == r2.value[ip]
      {
        assert Some(r1.value[ip]) == Some(r2.value[ip]);
      }
      assert r1.value == r2.value;
    }
  }

  // ---------------------------------------------------------------------------
  // create_ip_list

  /**
   * `create_ip_list`: a line that is empty once its newlines are stripped is
   * dropped; every other line is kept, in order, with its surrounding
   * whitespace stripped.
   */
  function CreateIpList(lines: seq<string>): (hosts: seq<string>)
    ensures |hosts| <= |lines|
    ensures forall h :: h in hosts ==> Strip(h) == h
  {
    HostsStripped(lines);
    FlatMap(lines, HostOf)
  }

  /** At most one host per line, and each already stripped. */
  lemma {:induction false} HostsStripped(lines: seq<string>)
    ensures |FlatMap(lines, HostOf)| <= |lines|
    ensures forall h :: h in FlatMap(lines, HostOf) ==> Strip(h) == h
  {
    if lines != [] {
      var head, rest := HostOf(lines[0]), FlatMap(lines[1..], HostOf);
      assert FlatMap(lines, HostOf) == head + rest;
      HostsStripped(lines[1..]);
      StripIdempotent(lines[0]);
      assert forall h :: h in head ==> Strip(h) == h;
    }
  }

  /** What one line contributes to the list. */
  function HostOf(line: string): seq<string>
  {
    if StripNewlines(line) != "" then [Strip(line)] else []
  }

  /** Every host in the list is already stripped. */
  lemma StripIdempotent(s: string)
    ensures Strip(Strip(s)) == Strip(s)
  {
    var r := Strip(s);
    StripBySpec(s, IsSpace);
    if r != [] {
      assert LeadCount(r, IsSpace) == 0;
      assert r[0..] == r;
      assert TrailCount(r, IsSpace) == 0;
    }
  }

  /** A line is dropped exactly when it consists of newlines only. */
  lemma BlankLineIff(line: string)
    ensures StripNewlines(line) == "" <==> forall k :: 0 <= k < |line| ==> line[k] == '\n'
  {
    StripBySpec(line, IsNewline);
  }

  /** Filtering works line by line, so the order of the file is kept. */
  lemma CreateIpListAppend(a: seq<string>, b: seq<string>)
    ensures CreateIpList(a + b) == CreateIpList(a) + CreateIpList(b)
  {
    FlatMapAppend(a, b, HostOf);
  }

  /** Each host in the list is the stripped form of a line that is not blank, and every such line yields one. */
  lemma CreateIpListMembers(lines: seq<string>, ip: string)
    ensures ip in CreateIpList(lines) <==> exists k :: 0 <= k < |lines| && StripNewlines(lines[k]) != "" && Strip(lines[k]) == ip
  {
    FlatMapMembers(lines, HostOf, ip);
  }

  /** A line of blanks that is not only newlines is kept, as an empty host. */
  lemma WhitespaceLineKeptEmpty(line: string)
    requires forall k :: 0 <= k < |line| ==> IsSpace(line[k])
    requires ' ' in line
    ensures CreateIpList([line]) == [""]
  {
    StripBySpec(line, IsSpace);
    StripBySpec(line, IsNewline);
    var k :| 0 <= k < |line| && line[k] == ' ';
    assert !IsNewline(line[k]);
    assert HostOf(line) == [""];
    assert [line][1..] == [];
    assert FlatMap([line], HostOf) == HostOf(line) + FlatMap([], HostOf);
  }
}

/**
 * The per-host loop of mtrfix.py's `run_ping`: fping every host of the list,
 * log and parse what it printed, write one CSV row per parsed entry, and
 * run mtr for the hosts fping reported a failure for.
 *
 * The subprocesses are parameters: what `communicate()` gave for fping and,
 * should it be started, for mtr.  An exception anywhere in the loop ends the
 * whole run (the `try` around the `with`), after the console got its message.
 */
module MtrRun {
  import opened Outcomes
  import opened Text
  import CheckIp
  import MtrFix

  /** `self.csv_headers`. */
  const CsvHeader: seq<string> := ["ip", "xmt", "rcv", "loss"]

  /** `str` of the TypeError that `raise str(e)` raises. */
  const RaiseMessage: string := "exceptions must derive from BaseException"

  /** `str` of the FileNotFoundError that opening a missing `IPlist.txt` raises. */
  const MissingListMessage: string := "[Errno 2] No such file or directory: 'IPlist.txt'"

  /** What `Popen(...).communicate()` gave: the exit code and both streams, or an exception. */
  datatype Subprocess = Exited(code: int, stdout: string, stderr: string) | Raised

  /** The programs of one host: fping, and mtr should it be started. */
  datatype HostRun = HostRun(fping: Subprocess, mtr: Subprocess)

  /** A parser of one captured entry; `run_ping` uses `collect_xmt_rcv`. */
  type Parser = string -> Result<MtrFix.XmtRcv, MtrFix.CollectError>

  /** A subprocess the loop started. */
  datatype Command = Fping(ip: string) | Mtr(ip: string)

  /**
   * The CSV rows, the lines of the ping and mtr logs, the console lines, the
   * subprocesses started, and whether an exception ended the run.
   */
  datatype Output = Output(csv: seq<seq<string>>, pingLog: seq<string>, mtrLog: seq<string>,
                           console: seq<string>, started: seq<Command>, aborted: bool)

  /** The three files just opened with `w+` and the header row written. */
  function Initial(): Output
  {
    Output([CsvHeader], [], [], [], [], false)
  }

  /** `print(self.dt, '\t', line, file=f_ping)`. */
  function LogLine(dt: string, line: string): string
  {
    dt + " \t " + line
  }

  /** `print(self.dt, '\t', ip, ' Run mtr：', file=f_mtr)`. */
  function MtrHeading(dt: string, ip: string): string
  {
    dt + " \t " + ip + "  Run mtr\U{FF1A}"
  }

  /** `print(self.dt, '\t', ip, ' run mtr error')`. */
  function MtrErrorLine(dt: string, ip: string): string
  {
    dt + " \t " + ip + "  run mtr error"
  }

  /**
   * Every file and the console only grow at their end, the subprocesses
   * started only grow, and after an exception nothing changes any more.
   */
  predicate Extends(o: Output, r: Output)
  {
    && o.csv <= r.csv && o.pingLog <= r.pingLog && o.mtrLog <= r.mtrLog
    && o.console <= r.console && o.started <= r.started
    && (o.aborted ==> r == o)
  }

  /** The `except` of `run_ping`: the exception's message goes to the console and the run ends. */
  function Abort(o: Output, message: string): (r: Output)
    ensures r.aborted && r.console == o.console + [message]
    ensures r.csv == o.csv && r.pingLog == o.pingLog && r.mtrLog == o.mtrLog && r.started == o.started
  {
    o.(console := o.console + [message], aborted := true)
  }

  /** The CSV row of one parsed entry, `[ip, xmt, rcv]`; nothing for an entry that does not parse. */
  function Row(parse: Parser, ip: string, line: string): seq<seq<string>>
  {
    match parse(line)
    case Ok(v) => [[ip, v.xmt, v.rcv]]
    case Err(_) => []
  }

  /** The rows of the entries, in order. */
  function Rows(parse: Parser, ip: string, lines: seq<string>): seq<seq<string>>
  {
    if lines == [] then [] else Row(parse, ip, lines[0]) + Rows(parse, ip, lines[1..])
  }

  /** The ping-log lines of the entries, in order. */
  function Logged(dt: string, lines: seq<string>): seq<string>
  {
    if lines == [] then [] else [LogLine(dt, lines[0])] + Logged(dt, lines[1..])
  }

  predicate Parses(parse: Parser, line: string)
  {
    parse(line).Ok?
  }

  /** Every entry parses. */
  predicate AllParse(parse: Parser, lines: seq<string>)
  {
    forall k :: 0 <= k < |lines| ==> Parses(parse, lines[k])
  }

  /**
   * The inner loop over `print_ip_result['result']`: each non-empty entry is
   * logged, then parsed; a parsed entry gives a row, one that does not parse
   * raises.
   */
  function PingLines(parse: Parser, dt: string, ip: string, lines: seq<string>, o: Output): (r: Output)
    ensures Extends(o, r)
  {
    if o.aborted || lines == [] then o
    else if lines[0] == "" then PingLines(parse, dt, ip, lines[1..], o)
    else
      var logged := LogEntry(dt, lines[0], o);
      match parse(lines[0])
      case Err(_) => Abort(logged, RaiseMessage)
      case Ok(v) => PingLines(parse, dt, ip, lines[1..], WriteRow(ip, v, logged))
  }

  function LogEntry(dt: string, line: string, o: Output): (r: Output)
    ensures r == o.(pingLog := o.pingLog + [LogLine(dt, line)])
  {
    o.(pingLog := o.pingLog + [LogLine(dt, line)])
  }

  function WriteRow(ip: string, v: MtrFix.XmtRcv, o: Output): (r: Output)
    ensures r == o.(csv := o.csv + [[ip, v.xmt, v.rcv]])
  {
    o.(csv := o.csv + [[ip, v.xmt, v.rcv]])
  }

  /** The first entry is not empty and parses: it is logged and its row written before the rest. */
  lemma PingLinesStep(parse: Parser, dt: string, ip: string, lines: seq<string>, o: Output)
    requires !o.aborted && lines != [] && lines[0] != "" && parse(lines[0]).Ok?
    ensures PingLines(parse, dt, ip, lines, o)
      == PingLines(parse, dt, ip, lines[1..], WriteRow(ip, parse(lines[0]).value, LogEntry(dt, lines[0], o)))
  {
  }

  lemma LoggedRowsCons(parse: Parser, dt: string, ip: string, x: string, xs: seq<string>)
    ensures Logged(dt, [x] + xs) == [LogLine(dt, x)] + Logged(dt, xs)
    ensures Rows(parse, ip, [x] + xs) == Row(parse, ip, x) + Rows(parse, ip, xs)
  {
    assert ([x] + xs)[1..] == xs;
  }

  /**
   * When every non-empty entry parses, the loop logs each of them and writes
   * one `[ip, xmt, rcv]` row for each, and touches nothing else.
   */
  lemma {:induction false} PingLinesParsed(parse: Parser, dt: string, ip: string, lines: seq<string>, o: Output)
    requires !o.aborted && AllParse(parse, NonEmpty(lines))
    ensures var r := PingLines(parse, dt, ip, lines, o);
      && !r.aborted
      && r.pingLog == o.pingLog + Logged(dt, NonEmpty(lines))
      && r.csv == o.csv + Rows(parse, ip, NonEmpty(lines))
      && r.mtrLog == o.mtrLog && r.console == o.console && r.started == o.started
  {
    if lines != [] {
      var ne := NonEmpty(lines[1..]);
      assert lines == [lines[0]] + lines[1..];
      if lines[0] == "" {
        assert NonEmpty(lines) == ne;
        PingLinesParsed(parse, dt, ip, lines[1..], o);
      } else {
        assert NonEmpty(lines) == [lines[0]] + ne;
        assert Parses(parse, NonEmpty(lines)[0]);
        var next := WriteRow(ip, parse(lines[0]).value, LogEntry(dt, lines[0], o));
        PingLinesStep(parse, dt, ip, lines, o);
        assert AllParse(parse, ne) by {
          forall k | 0 <= k < |ne|
            ensures Parses(parse, ne[k])
          {
            assert ne[k] == NonEmpty(lines)[k + 1];
          }
        }
        PingLinesParsed(parse, dt, ip, lines[1..], next);
        ParsedAfterRow(parse, dt, ip, lines[0], ne, o, next, PingLines(parse, dt, ip, lines[1..], next));
      }
    }
  }

  /** The effect of the rest of the loop, after the row of a first entry that parses. */
  lemma ParsedAfterRow(parse: Parser, dt: string, ip: string, x: string, rest: seq<string>, o: Output, next: Output, r: Output)
    requires Parses(parse, x)
    requires next == WriteRow(ip, parse(x).value, LogEntry(dt, x, o))
    requires && r.pingLog == next.pingLog + Logged(dt, rest)
      && r.csv == next.csv + Rows(parse, ip, rest)
      && r.mtrLog == next.mtrLog && r.console == next.console && r.started == next.started
    ensures && r.pingLog == o.pingLog + Logged(dt, [x] + rest)
      && r.csv == o.csv + Rows(parse, ip, [x] + rest)
      && r.mtrLog == o.mtrLog && r.console == o.console && r.started == o.started
  {
    LoggedRowsCons(parse, dt, ip, x, rest);
    assert next.pingLog + Logged(dt, rest) == o.pingLog + ([LogLine(dt, x)] + Logged(dt, rest));
    assert next.csv + Rows(parse, ip, rest) == o.csv + (Row(parse, ip, x) + Rows(parse, ip, rest));
  }

  lemma ConsPrefix<T>(x: T, xs: seq<T>, k: nat)
    requires k <= |xs|
    ensures ([x] + xs)[..k + 1] == [x] + xs[..k]
  {
  }

  /** The entries before `k` all parse exactly when the first does and those of the rest before `k - 1` do. */
  lemma AllParseCons(parse: Parser, x: string, xs: seq<string>, k: nat)
    requires 0 < k <= |xs| + 1
    ensures AllParse(parse, ([x] + xs)[..k]) <==> Parses(parse, x) && AllParse(parse, xs[..k - 1])
  {
    ConsPrefix(x, xs, k - 1);
    var p := [x] + xs[..k - 1];
    if Parses(parse, x) && AllParse(parse, xs[..k - 1]) {
      forall n | 0 <= n < |p|
        ensures Parses(parse, p[n])
      {
        if n > 0 {
          assert p[n] == xs[..k - 1][n - 1];
        }
      }
    }
    if AllParse(parse, p) {
      assert Parses(parse, p[0]);
      var q := xs[..k - 1];
      forall n | 0 <= n < |q|
        ensures Parses(parse, q[n])
      {
        assert q[n] == p[n + 1];
      }
    }
  }

  /**
   * When the non-empty entry `k` is the first that does not parse, the loop
   * logs the entries up to and including it, writes the rows of those before
   * it, and raises.
   */
  lemma {:induction false} PingLinesRaise(parse: Parser, dt: string, ip: string, lines: seq<string>, o: Output, k: nat)
    requires !o.aborted
    requires var ne := NonEmpty(lines); k < |ne| && !Parses(parse, ne[k]) && AllParse(parse, ne[..k])
    ensures var r, ne := PingLines(parse, dt, ip, lines, o), NonEmpty(lines);
      && r.aborted
      && r.pingLog == o.pingLog + Logged(dt, ne[..k + 1])
      && r.csv == o.csv + Rows(parse, ip, ne[..k])
      && r.console == o.console + [RaiseMessage]
      && r.mtrLog == o.mtrLog && r.started == o.started
  {
    var ne := NonEmpty(lines);
    var rest := NonEmpty(lines[1..]);
    assert lines == [lines[0]] + lines[1..];
    if lines[0] == "" {
      assert ne == rest;
      PingLinesRaise(parse, dt, ip, lines[1..], o, k);
    } else {
      assert ne == [lines[0]] + rest;
      ConsPrefix(lines[0], rest, k);
      if k == 0 {
        LoggedRowsCons(parse, dt, ip, lines[0], []);
      } else {
        AllParseCons(parse, lines[0], rest, k);
        var next := WriteRow(ip, parse(lines[0]).value, LogEntry(dt, lines[0], o));
        PingLinesRaise(parse, dt, ip, lines[1..], next, k - 1);
        PingLinesStep(parse, dt, ip, lines, o);
        RaiseAfterRow(parse, dt, ip, lines[0], rest, o, next, PingLines(parse, dt, ip, lines[1..], next), k);
      }
    }
  }

  /** The effect of a raise one entry further on, after the row of a first entry that parses. */
  lemma RaiseAfterRow(parse: Parser, dt: string, ip: string, x: string, rest: seq<string>, o: Output, next: Output, r: Output, k: nat)
    requires Parses(parse, x) && 0 < k <= |rest|
    requires next == WriteRow(ip, parse(x).value, LogEntry(dt, x, o))
    requires && r.aborted
      && r.pingLog == next.pingLog + Logged(dt, rest[..k])
      && r.csv == next.csv + Rows(parse, ip, rest[..k - 1])
      && r.console == next.console + [RaiseMessage]
      && r.mtrLog == next.mtrLog && r.started == next.started
    ensures var ne := [x] + rest;
      && r.pingLog == o.pingLog + Logged(dt, ne[..k + 1])
      && r.csv == o.csv + Rows(parse, ip, ne[..k])
      && r.console == o.console + [RaiseMessage]
      && r.mtrLog == o.mtrLog && r.started == o.started
  {
    ConsPrefix(x, rest, k);
    ConsPrefix(x, rest, k - 1);
    LoggedRowsCons(parse, dt, ip, x, rest[..k]);
    LoggedRowsCons(parse, dt, ip, x, rest[..k - 1]);
    assert next.pingLog + Logged(dt, rest[..k]) == o.pingLog + ([LogLine(dt, x)] + Logged(dt, rest[..k]));
    assert next.csv + Rows(parse, ip, rest[..k - 1]) == o.csv + (Row(parse, ip, x) + Rows(parse, ip, rest[..k - 1]));
  }

  /** `mtr_ip(ip)` and what is written from its result. */
  function MtrStep(dt: string, ip: string, mtr: Subprocess, o: Output): (r: Output)
    requires !o.aborted
    ensures Extends(o, r)
  {
    var o1 := o.(started := o.started + [Mtr(ip)]);
    match mtr
    case Raised => Abort(o1, RaiseMessage)
    case Exited(code, out, err) =>
      if code == 0 then o1.(mtrLog := o1.mtrLog + [MtrHeading(dt, ip)] + NonEmpty(Captured(out, err)))
      else o1.(console := o1.console + [MtrErrorLine(dt, ip)])
  }

  /** One pass of `for ip in self.create_ip_list()`. */
  function HostStep(parse: Parser, dt: string, ip: string, run: HostRun, o: Output): (r: Output)
    ensures Extends(o, r)
  {
    if o.aborted then o
    else
      var o1 := o.(started := o.started + [Fping(ip)]);
      match run.fping
      case Raised => Abort(o1, RaiseMessage)
      case Exited(code, out, err) =>
        var o2 := PingLines(parse, dt, ip, Captured(out, err), o1);
        if o2.aborted || code == 0 then o2 else MtrStep(dt, ip, run.mtr, o2)
  }

  /** The loop over the host list, from `o` on; host `k` gets `runs[k]`. */
  function Hosts(parse: Parser, dt: string, hosts: seq<string>, runs: seq<HostRun>, o: Output): (r: Output)
    requires |runs| >= |hosts|
    ensures Extends(o, r)
  {
    if hosts == [] then o else Hosts(parse, dt, hosts[1..], runs[1..], HostStep(parse, dt, hosts[0], runs[0], o))
  }

  /**
   * `run_ping`: the three files are opened and the header written, then the
   * host list is read from `IPlist.txt` (`None` when it does not exist, whose
   * FileNotFoundError ends the run with its own message).
   */
  function RunPing(dt: string, ipFile: Option<seq<string>>, runs: seq<HostRun>): (r: Output)
    requires ipFile.Some? ==> |runs| >= |CheckIp.CreateIpList(ipFile.value)|
    ensures Extends(Initial(), r) && r.csv[0] == CsvHeader
    ensures ipFile.None? ==> r.aborted && r.console == [MissingListMessage] && r.csv == [CsvHeader] && r.started == []
  {
    match ipFile
    case None => Abort(Initial(), MissingListMessage)
    case Some(lines) => Hosts(MtrFix.CollectXmtRcv, dt, CheckIp.CreateIpList(lines), runs, Initial())
  }

  // ---------------------------------------------------------------------------
  // Properties of one host and of the whole run

  /** Some non-empty entry does not parse: the first one, with all before it parsing. */
  lemma {:induction false} FirstFailure(parse: Parser, ne: seq<string>) returns (k: nat)
    requires !AllParse(parse, ne)
    ensures k < |ne| && !Parses(parse, ne[k]) && AllParse(parse, ne[..k])
  {
    if Parses(parse, ne[0]) {
      assert !AllParse(parse, ne[1..]) by {
        var j :| 0 <= j < |ne| && !Parses(parse, ne[j]);
        assert j > 0 && ne[j] == ne[1..][j - 1];
      }
      var k' := FirstFailure(parse, ne[1..]);
      k := k' + 1;
      assert ne == [ne[0]] + ne[1..];
      AllParseCons(parse, ne[0], ne[1..], k);
    } else {
      k := 0;
    }
  }

  /** The inner loop raises exactly when some non-empty entry does not parse; it starts no subprocess and writes no mtr log. */
  lemma PingLinesOutcome(parse: Parser, dt: string, ip: string, lines: seq<string>, o: Output)
    requires !o.aborted
    ensures var r := PingLines(parse, dt, ip, lines, o);
      && (r.aborted <==> !AllParse(parse, NonEmpty(lines)))
      && r.started == o.started && r.mtrLog == o.mtrLog
      && (r.aborted ==> r.console == o.console + [RaiseMessage])
      && (!r.aborted ==> r.console == o.console)
  {
    if AllParse(parse, NonEmpty(lines)) {
      PingLinesParsed(parse, dt, ip, lines, o);
    } else {
      var k := FirstFailure(parse, NonEmpty(lines));
      PingLinesRaise(parse, dt, ip, lines, o, k);
    }
  }

  /** The fping of a host exited with a failure code and all it printed parsed: the condition under which mtr is started. */
  predicate Escalates(parse: Parser, fping: Subprocess)
  {
    fping.Exited? && fping.code != 0 && AllParse(parse, NonEmpty(Captured(fping.stdout, fping.stderr)))
  }

  /**
   * For a host reached without an earlier exception, fping is started, and
   * mtr is started right after it exactly when fping's exit code is not 0
   * (and its output did not raise first).
   */
  lemma MtrStartedIff(parse: Parser, dt: string, ip: string, run: HostRun, o: Output)
    requires !o.aborted
    ensures HostStep(parse, dt, ip, run, o).started
      == o.started + [Fping(ip)] + (if Escalates(parse, run.fping) then [Mtr(ip)] else [])
  {
    var o1 := o.(started := o.started + [Fping(ip)]);
    if run.fping.Exited? {
      PingLinesOutcome(parse, dt, ip, Captured(run.fping.stdout, run.fping.stderr), o1);
    }
  }

  /**
   * The mtr log of a host gets the heading and mtr's non-empty output exactly
   * when mtr was started and exited with 0; the console gets the error line
   * exactly when mtr was started and exited with another code.
   */
  lemma MtrLogIff(parse: Parser, dt: string, ip: string, run: HostRun, o: Output)
    requires !o.aborted
    ensures var r := HostStep(parse, dt, ip, run, o);
      var ran := Escalates(parse, run.fping);
      && (ran && run.mtr.Exited? && run.mtr.code == 0 ==>
            r.mtrLog == o.mtrLog + [MtrHeading(dt, ip)] + NonEmpty(Captured(run.mtr.stdout, run.mtr.stderr)))
      && (!(ran && run.mtr.Exited? && run.mtr.code == 0) ==> r.mtrLog == o.mtrLog)
      && (MtrErrorLine(dt, ip) in r.console[|o.console|..] <==> ran && run.mtr.Exited? && run.mtr.code != 0)
  {
    var o1 := o.(started := o.started + [Fping(ip)]);
    var r := HostStep(parse, dt, ip, run, o);
    MtrErrorNotRaise(dt, ip);
    if run.fping.Exited? {
      var o2 := PingLines(parse, dt, ip, Captured(run.fping.stdout, run.fping.stderr), o1);
      PingLinesOutcome(parse, dt, ip, Captured(run.fping.stdout, run.fping.stderr), o1);
      if Escalates(parse, run.fping) {
        assert o2.console == o.console;
        if run.mtr.Exited? && run.mtr.code != 0 {
          assert r.console[|o.console|..] == [MtrErrorLine(dt, ip)];
        } else if run.mtr.Exited? {
          assert r.console[|o.console|..] == [];
        } else {
          assert r.console[|o.console|..] == [RaiseMessage];
        }
      } else if o2.aborted {
        assert r.console[|o.console|..] == [RaiseMessage];
      } else {
        assert r.console[|o.console|..] == [];
      }
    } else {
      assert r.console[|o.console|..] == [RaiseMessage];
    }
  }

  /** The console line of a failed mtr is not the message of the exception. */
  lemma MtrErrorNotRaise(dt: string, ip: string)
    ensures MtrErrorLine(dt, ip) != RaiseMessage
  {
    var l := MtrErrorLine(dt, ip);
    assert l[|l| - 1] == 'r' && RaiseMessage[|RaiseMessage| - 1] == 'n';
  }

  /** The rows from index `n` on each have three fields and start with one of `hosts`. */
  ghost predicate RowsFrom(csv: seq<seq<string>>, n: nat, hosts: seq<string>)
  {
    forall k :: n <= k < |csv| ==> |csv[k]| == 3 && csv[k][0] in hosts
  }

  /** Every row the inner loop writes is `[ip, xmt, rcv]`. */
  lemma {:induction false} PingLinesRows(parse: Parser, dt: string, ip: string, lines: seq<string>, o: Output)
    ensures RowsFrom(PingLines(parse, dt, ip, lines, o).csv, |o.csv|, [ip])
  {
    if !o.aborted && lines != [] {
      if lines[0] == "" {
        PingLinesRows(parse, dt, ip, lines[1..], o);
      } else if parse(lines[0]).Ok? {
        var next := WriteRow(ip, parse(lines[0]).value, LogEntry(dt, lines[0], o));
        PingLinesStep(parse, dt, ip, lines, o);
        PingLinesRows(parse, dt, ip, lines[1..], next);
        var r := PingLines(parse, dt, ip, lines[1..], next);
        forall k | |o.csv| <= k < |r.csv|
          ensures |r.csv[k]| == 3 && r.csv[k][0] in [ip]
        {
          if k == |o.csv| {
            assert r.csv[k] == next.csv[k];
          }
        }
      }
    }
  }

  /** Every row written for a host is `[ip, xmt, rcv]`. */
  lemma HostStepRows(parse: Parser, dt: string, ip: string, run: HostRun, o: Output)
    ensures RowsFrom(HostStep(parse, dt, ip, run, o).csv, |o.csv|, [ip])
  {
    if !o.aborted && run.fping.Exited? {
      var o1 := o.(started := o.started + [Fping(ip)]);
      PingLinesRows(parse, dt, ip, Captured(run.fping.stdout, run.fping.stderr), o1);
    }
  }

  /** Every row the host loop writes has three fields and names one of the hosts. */
  lemma {:induction false} HostsRows(parse: Parser, dt: string, hosts: seq<string>, runs: seq<HostRun>, o: Output)
    requires |runs| >= |hosts|
    ensures RowsFrom(Hosts(parse, dt, hosts, runs, o).csv, |o.csv|, hosts)
  {
    if hosts != [] {
      var o1 := HostStep(parse, dt, hosts[0], runs[0], o);
      HostStepRows(parse, dt, hosts[0], runs[0], o);
      HostsRows(parse, dt, hosts[1..], runs[1..], o1);
      var r := Hosts(parse, dt, hosts[1..], runs[1..], o1);
      forall k | |o.csv| <= k < |r.csv|
        ensures |r.csv[k]| == 3 && r.csv[k][0] in hosts
      {
        if k < |o1.csv| {
          assert r.csv[k] == o1.csv[k];
        } else {
          assert r.csv[k][0] in hosts[1..];
        }
      }
    }
  }

  /**
   * The CSV file starts with the four-field header, and every row after it
   * has three fields, the first one a host of the list.
   */
  lemma RowsHaveThreeFields(dt: string, ipFile: Option<seq<string>>, runs: seq<HostRun>)
    requires ipFile.Some? ==> |runs| >= |CheckIp.CreateIpList(ipFile.value)|
    ensures var r := RunPing(dt, ipFile, runs);
      && |r.csv| >= 1 && r.csv[0] == CsvHeader && |CsvHeader| == 4
      && (ipFile.Some? ==> RowsFrom(r.csv, 1, CheckIp.CreateIpList(ipFile.value)))
      && (ipFile.None? ==> r.csv == [CsvHeader] && r.aborted)
  {
    if ipFile.Some? {
      HostsRows(MtrFix.CollectXmtRcv, dt, CheckIp.CreateIpList(ipFile.value), runs, Initial());
    }
  }

  /** Once an exception ended the run, the remaining hosts are not visited. */
  lemma {:induction false} AbortStopsRun(parse: Parser, dt: string, hosts: seq<string>, runs: seq<HostRun>, o: Output)
    requires |runs| >= |hosts| && o.aborted
    ensures Hosts(parse, dt, hosts, runs, o) == o
  {
    if hosts != [] {
      AbortStopsRun(parse, dt, hosts[1..], runs[1..], o);
    }
  }

  /** The hosts fping was started for, in order. */
  function FpingTargets(cmds: seq<Command>): seq<string>
  {
    if cmds == [] then [] else (if cmds[0].Fping? then [cmds[0].ip] else []) + FpingTargets(cmds[1..])
  }

  lemma {:induction false} FpingTargetsAppend(a: seq<Command>, b: seq<Command>)
    ensures FpingTargets(a + b) == FpingTargets(a) + FpingTargets(b)
  {
    if a != [] {
      assert (a + b)[1..] == a[1..] + b;
      FpingTargetsAppend(a[1..], b);
    } else {
      assert a + b == b;
    }
  }

  /** One host starts fping once, for that host, unless the run had already ended. */
  lemma HostStepFping(parse: Parser, dt: string, ip: string, run: HostRun, o: Output)
    requires !o.aborted
    ensures FpingTargets(HostStep(parse, dt, ip, run, o).started) == FpingTargets(o.started) + [ip]
  {
    MtrStartedIff(parse, dt, ip, run, o);
    var tail: seq<Command> := if Escalates(parse, run.fping) then [Mtr(ip)] else [];
    FpingTargetsAppend(o.started + [Fping(ip)], tail);
    FpingTargetsAppend(o.started, [Fping(ip)]);
    assert FpingTargets(tail) == [] by {
      if tail != [] {
        assert tail[1..] == [];
      }
    }
    assert FpingTargets([Fping(ip)]) == [ip] by {
      assert [Fping(ip)][1..] == [];
    }
  }

  /**
   * fping is started for the hosts in list order, one run each, up to the
   * host whose exception ended the run; without an exception, for every host.
   */
  lemma {:induction false} HostsStartFping(parse: Parser, dt: string, hosts: seq<string>, runs: seq<HostRun>, o: Output)
    requires |runs| >= |hosts| && !o.aborted
    ensures var r := Hosts(parse, dt, hosts, runs, o);
      && FpingTargets(o.started) <= FpingTargets(r.started) <= FpingTargets(o.started) + hosts
      && (!r.aborted ==> FpingTargets(r.started) == FpingTargets(o.started) + hosts)
  {
    if hosts != [] {
      var o1 := HostStep(parse, dt, hosts[0], runs[0], o);
      HostStepFping(parse, dt, hosts[0], runs[0], o);
      var r := Hosts(parse, dt, hosts[1..], runs[1..], o1);
      assert hosts == [hosts[0]] + hosts[1..];
      if o1.aborted {
        AbortStopsRun(parse, dt, hosts[1..], runs[1..], o1);
      } else {
        HostsStartFping(parse, dt, hosts[1..], runs[1..], o1);
      }
    }
  }

  /**
   * `run_ping` starts fping for a prefix of the host list, in order, and for
   * all of it when no exception ends the run; a missing `IPlist.txt` starts
   * nothing.
   */
  lemma RunStartsFping(dt: string, ipFile: Option<seq<string>>, runs: seq<HostRun>)
    requires ipFile.Some? ==> |runs| >= |CheckIp.CreateIpList(ipFile.value)|
    ensures var r := RunPing(dt, ipFile, runs);
      && (ipFile.None? ==> r.started == [])
      && (ipFile.Some? ==> FpingTargets(r.started) <= CheckIp.CreateIpList(ipFile.value))
      && (ipFile.Some? && !r.aborted ==> FpingTargets(r.started) == CheckIp.CreateIpList(ipFile.value))
  {
    if ipFile.Some? {
      HostsStartFping(MtrFix.CollectXmtRcv, dt, CheckIp.CreateIpList(ipFile.value), runs, Initial());
    }
  }
}

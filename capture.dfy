/** `print_advertising_devices`: narrow the HCI socket's event filter to LE
    Meta events, read events until something ends the capture, print one
    line per advertising report, and put the original filter back.

    The socket is a class over an abstract transport: its filter, whether
    querying or setting the filter option fails, and the outcomes its reads
    will have, in order.  The asynchronous SIGINT handler is replaced by a
    flag on each failed read saying whether SIGINT had been recorded. */
module Capture {
  import opened Bytes
  import opened AdRender
  import opened AdDecoder
  import opened HciFrame

  /** An HCI socket filter: the packet types and event codes let through,
      and the command opcode. */
  datatype Filter = Filter(packetTypes: set<uint8>, events: set<uint8>, opcode: nat)

  /** `hci_filter_clear`, then event packets only, then LE Meta events only. */
  function LeMetaFilter(): (f: Filter)
    ensures f.packetTypes == {HCI_EVENT_PKT} && f.events == {EVT_LE_META_EVENT}
  {
    Filter({HCI_EVENT_PKT}, {EVT_LE_META_EVENT}, 0)
  }

  datatype Errno = EINTR | EAGAIN | OtherErrno(code: nat)

  /** What one `read` on the socket does: deliver an event, or fail with an
      errno, SIGINT having been recorded by then or not. */
  datatype ReadOutcome = Data(octets: seq<uint8>) | Failed(errno: Errno, sigint: bool)

  /** Why the capture ended. */
  datatype Stop =
    | FilterQueryFailed
    | FilterInstallFailed
    | Interrupted
    | ReadFailed(errno: Errno)
    /** An event whose subevent code is not 0x02; `len` is the read count
        minus the three octets before the subevent code. */
    | NotAdvertising(subevent: uint8, len: int)
    /** The report's RSSI position lies beyond the receive buffer. */
    | BufferOverrun
    /** The read outcomes given to the model ran out (the program would
        block in `read`). */
    | TransportIdle

  /** A capture: the reports printed, why it stopped, and how many read
      outcomes it used. */
  datatype Run = Run(reports: seq<Report>, stop: Stop, consumed: nat)

  /** The value `read` returns for a delivered event: its length, cut to
      the buffer size. */
  function ReadCount(octets: seq<uint8>): (r: nat)
    ensures r <= HCI_MAX_EVENT_SIZE && r <= |octets|
    ensures |octets| <= HCI_MAX_EVENT_SIZE ==> r == |octets|
  {
    if |octets| > HCI_MAX_EVENT_SIZE then HCI_MAX_EVENT_SIZE else |octets|
  }

  /** The read outcome that ends a capture with `stop`: SIGINT during the
      read, an error other than EAGAIN and EINTR, or a delivered event. */
  predicate StoppedBy(stop: Stop, o: ReadOutcome) {
    match stop
    case Interrupted => o == Failed(EINTR, true)
    case ReadFailed(e) => o.Failed? && o.errno == e && e != EAGAIN && e != EINTR
    case NotAdvertising(_, _) => o.Data?
    case BufferOverrun => o.Data?
    case _ => false
  }

  /** The capture loop, from receive-buffer contents `buf`, reading the
      outcomes `outs`: SIGINT during a read ends it cleanly, EAGAIN and
      EINTR without SIGINT are retried, any other error ends it; an event
      that is not an advertising report ends it; otherwise the report is
      printed and the loop goes on. */
  function CaptureFrom(buf: seq<uint8>, outs: seq<ReadOutcome>): (run: Run)
    requires |buf| == HCI_MAX_EVENT_SIZE
    ensures run.consumed <= |outs|
    ensures !run.stop.FilterQueryFailed? && !run.stop.FilterInstallFailed?
    decreases |outs|
  {
    if outs == [] then Run([], TransportIdle, 0)
    else match outs[0]
      case Failed(errno, sigint) =>
        if errno == EINTR && sigint then Run([], Interrupted, 1)
        else if errno == EAGAIN || errno == EINTR then
          var rest := CaptureFrom(buf, outs[1..]);
          Run(rest.reports, rest.stop, rest.consumed + 1)
        else Run([], ReadFailed(errno), 1)
      case Data(octets) =>
        var next := Receive(buf, octets);
        match Extract(next)
        case OtherSubevent(sub) => Run([], NotAdvertising(sub, ReadCount(octets) - (1 + HCI_EVENT_HDR_SIZE)), 1)
        case PastBuffer => Run([], BufferOverrun, 1)
        case Advertising(r) =>
          var rest := CaptureFrom(next, outs[1..]);
          Run([r] + rest.reports, rest.stop, rest.consumed + 1)
  }

  /** A capture prints at most one report per read it uses; it uses every
      read given only when they ran out; otherwise the last read it used is
      the one that stopped it. */
  lemma {:induction false} CaptureStops(buf: seq<uint8>, outs: seq<ReadOutcome>)
    requires |buf| == HCI_MAX_EVENT_SIZE
    ensures var run := CaptureFrom(buf, outs);
      |run.reports| <= run.consumed &&
      (run.stop.TransportIdle? ==> run.consumed == |outs|) &&
      (!run.stop.TransportIdle? ==> 0 < run.consumed && StoppedBy(run.stop, outs[run.consumed - 1]))
    decreases |outs|
  {
    if outs != [] {
      var rest := outs[1..];
      match outs[0]
      case Failed(errno, sigint) =>
        if !(errno == EINTR && sigint) && (errno == EAGAIN || errno == EINTR) {
          CaptureStops(buf, rest);
          var r := CaptureFrom(buf, rest);
          if !r.stop.TransportIdle? {
            assert outs[r.consumed] == rest[r.consumed - 1];
          }
        }
      case Data(octets) =>
        var next := Receive(buf, octets);
        if Extract(next).Advertising? {
          CaptureStops(next, rest);
          var r := CaptureFrom(next, rest);
          if !r.stop.TransportIdle? {
            assert outs[r.consumed] == rest[r.consumed - 1];
          }
        }
    }
  }

  /** The whole of `print_advertising_devices`: the filter is queried, then
      the narrowed filter installed, then the capture runs on the receive
      buffer's initial contents `stale`. */
  function Session(queryOk: bool, installOk: bool, stale: seq<uint8>, outs: seq<ReadOutcome>): Run
    requires |stale| == HCI_MAX_EVENT_SIZE
  {
    if !queryOk then Run([], FilterQueryFailed, 0)
    else if !installOk then Run([], FilterInstallFailed, 0)
    else CaptureFrom(stale, outs)
  }

  /** The value the function returns: -1 when the filter could not be
      queried or installed, when a read failed, or when an event shorter
      than three octets ended the capture (`len` went negative); 0 after
      SIGINT or any other non-advertising event.  None for the two stops
      that only the model has. */
  function ReturnValue(stop: Stop): (r: Option<int>)
    ensures r == Some(0) <==> stop.Interrupted? || (stop.NotAdvertising? && stop.len >= 0)
    ensures r == Some(-1) <==>
      stop.FilterQueryFailed? || stop.FilterInstallFailed? || stop.ReadFailed? ||
      (stop.NotAdvertising? && stop.len < 0)
    ensures r.None? <==> stop.BufferOverrun? || stop.TransportIdle?
  {
    match stop
    case FilterQueryFailed => Some(-1)
    case FilterInstallFailed => Some(-1)
    case ReadFailed(_) => Some(-1)
    case Interrupted => Some(0)
    case NotAdvertising(_, len) => Some(if len < 0 then -1 else 0)
    case BufferOverrun => None
    case TransportIdle => None
  }

  /** The line printed for one report, without the address column (the
      address text comes from `ba2str`, which is not part of this model):
      RSSI as `%4d`, a space, the decoded fields, a newline. */
  function ReportLine(r: Report): string
  {
    Width4(r.Rssi()) + " " + RenderAll(Decode(r.payload + [r.rssiOctet], |r.payload|)) + "\n"
  }

  /** The lines printed for a run of reports, one after another. */
  function Lines(rs: seq<Report>): string
  {
    if rs == [] then "" else Lines(rs[..|rs| - 1]) + ReportLine(rs[|rs| - 1])
  }

  /** `lines[i]` is the line printed for `reports[i]`. */
  predicate Rendered(lines: seq<string>, reports: seq<Report>)
  {
    |lines| == |reports| &&
    forall i {:trigger ReportLine(reports[i])} :: 0 <= i < |reports| ==> lines[i] == ReportLine(reports[i])
  }

  lemma RenderedAppend(lines: seq<string>, reports: seq<Report>, line: string, r: Report)
    requires Rendered(lines, reports) && line == ReportLine(r)
    ensures Rendered(lines + [line], reports + [r])
  {
    forall i | 0 <= i < |reports| + 1
      ensures (lines + [line])[i] == ReportLine((reports + [r])[i])
    {
      if i < |reports| {
        assert (reports + [r])[i] == reports[i];
        assert lines[i] == ReportLine(reports[i]);
      }
    }
  }

  /** The lines printed one after another for reports related by
      `Rendered` are the text of all those reports. */
  lemma {:induction false} RenderedJoin(lines: seq<string>, reports: seq<Report>)
    requires Rendered(lines, reports)
    ensures Join(lines) == Lines(reports)
  {
    if reports != [] {
      var n := |reports| - 1;
      assert Rendered(lines[..n], reports[..n]) by {
        forall i | 0 <= i < n
          ensures lines[..n][i] == ReportLine(reports[..n][i])
        {
          assert reports[..n][i] == reports[i];
          assert lines[i] == ReportLine(reports[i]);
        }
      }
      RenderedJoin(lines[..n], reports[..n]);
      assert lines[n] == ReportLine(reports[n]);
    }
  }

  /** Everything printed on standard output during a capture. */
  function Output(run: Run): string
  {
    Lines(run.reports) + (if run.stop.Interrupted? then "\nSIGINT\n" else "")
  }

  /** The capture after some reports were printed and some outcomes used. */
  function After(reports: seq<Report>, consumed: nat, run: Run): Run
  {
    Run(reports + run.reports, run.stop, consumed + run.consumed)
  }

  /** A retried read prints nothing and changes nothing but the count of
      outcomes used. */
  lemma StepRetry(reports: seq<Report>, consumed: nat, buf: seq<uint8>, outs: seq<ReadOutcome>)
    requires |buf| == HCI_MAX_EVENT_SIZE && outs != [] && outs[0].Failed?
    requires !(outs[0].errno == EINTR && outs[0].sigint)
    requires outs[0].errno == EAGAIN || outs[0].errno == EINTR
    ensures After(reports, consumed, CaptureFrom(buf, outs)) == After(reports, consumed + 1, CaptureFrom(buf, outs[1..]))
  {
  }

  /** A read that ends the capture before any event is looked at. */
  lemma StepReadStop(reports: seq<Report>, consumed: nat, buf: seq<uint8>, outs: seq<ReadOutcome>, stop: Stop)
    requires |buf| == HCI_MAX_EVENT_SIZE && outs != [] && outs[0].Failed?
    requires stop == (if outs[0].errno == EINTR && outs[0].sigint then Interrupted else ReadFailed(outs[0].errno))
    requires stop.Interrupted? || (outs[0].errno != EAGAIN && outs[0].errno != EINTR)
    ensures After(reports, consumed, CaptureFrom(buf, outs)) == Run(reports, stop, consumed + 1)
  {
  }

  /** A delivered event: either it is a report, printed before the loop goes
      on with the new buffer contents, or the capture stops on it. */
  lemma StepEvent(reports: seq<Report>, consumed: nat, buf: seq<uint8>, outs: seq<ReadOutcome>)
    requires |buf| == HCI_MAX_EVENT_SIZE && outs != [] && outs[0].Data?
    ensures var next := Receive(buf, outs[0].octets);
      var len := ReadCount(outs[0].octets) - (1 + HCI_EVENT_HDR_SIZE);
      After(reports, consumed, CaptureFrom(buf, outs)) ==
        match Extract(next)
        case Advertising(r) => After(reports + [r], consumed + 1, CaptureFrom(next, outs[1..]))
        case OtherSubevent(sub) => Run(reports, NotAdvertising(sub, len), consumed + 1)
        case PastBuffer => Run(reports, BufferOverrun, consumed + 1)
  {
  }

  /** A read the inner loop retries: EAGAIN, or EINTR without SIGINT. */
  predicate Retried(o: ReadOutcome) {
    o.Failed? && (o.errno == EAGAIN || o.errno == EINTR) && !(o.errno == EINTR && o.sigint)
  }

  /** Retried reads print nothing and leave the buffer alone: the capture
      after them is the capture without them, save for the count of reads. */
  lemma {:induction false} RetriesAreSilent(buf: seq<uint8>, pre: seq<ReadOutcome>, outs: seq<ReadOutcome>)
    requires |buf| == HCI_MAX_EVENT_SIZE
    requires forall i :: 0 <= i < |pre| ==> Retried(pre[i])
    ensures var run := CaptureFrom(buf, outs);
      CaptureFrom(buf, pre + outs) == Run(run.reports, run.stop, |pre| + run.consumed)
  {
    if pre != [] {
      assert Retried(pre[0]);
      assert (pre + outs)[0] == pre[0] && (pre + outs)[1..] == pre[1..] + outs;
      RetriesAreSilent(buf, pre[1..], outs);
    } else {
      assert pre + outs == outs;
    }
  }

  /** How many reads in a row, from the first, are retried. */
  function LeadingRetries(outs: seq<ReadOutcome>): (k: nat)
    ensures k <= |outs|
    ensures forall i :: 0 <= i < k ==> Retried(outs[i])
    ensures k < |outs| ==> !Retried(outs[k])
  {
    if outs == [] || !Retried(outs[0]) then 0 else 1 + LeadingRetries(outs[1..])
  }

  /** The capture goes on from the first read that is not retried. */
  lemma AfterRetries(reports: seq<Report>, consumed: nat, buf: seq<uint8>, outs: seq<ReadOutcome>)
    requires |buf| == HCI_MAX_EVENT_SIZE
    ensures var k := LeadingRetries(outs);
      After(reports, consumed, CaptureFrom(buf, outs)) == After(reports, consumed + k, CaptureFrom(buf, outs[k..]))
  {
    var k := LeadingRetries(outs);
    RetriesAreSilent(buf, outs[..k], outs[k..]);
    assert outs[..k] + outs[k..] == outs;
  }

  /** Once the capture has stopped nothing more is read: outcomes that would
      have come later make no difference. */
  lemma {:induction false} StopIsFinal(buf: seq<uint8>, outs: seq<ReadOutcome>, more: seq<ReadOutcome>)
    requires |buf| == HCI_MAX_EVENT_SIZE
    requires !CaptureFrom(buf, outs).stop.TransportIdle?
    ensures CaptureFrom(buf, outs + more) == CaptureFrom(buf, outs)
    decreases |outs|
  {
    assert (outs + more)[0] == outs[0] && (outs + more)[1..] == outs[1..] + more;
    match outs[0]
    case Failed(e, sigint) =>
      if !(e == EINTR && sigint) && (e == EAGAIN || e == EINTR) {
        StopIsFinal(buf, outs[1..], more);
      }
    case Data(octets) =>
      var next := Receive(buf, octets);
      if Extract(next).Advertising? {
        StopIsFinal(next, outs[1..], more);
      }
  }

  /** SIGINT during a read, after any number of retried reads, ends the
      capture cleanly: nothing but the SIGINT notice is printed and the
      function returns 0. */
  lemma InterruptIsClean(buf: seq<uint8>, retries: seq<ReadOutcome>, more: seq<ReadOutcome>)
    requires |buf| == HCI_MAX_EVENT_SIZE
    requires forall i :: 0 <= i < |retries| ==> Retried(retries[i])
    ensures var run := CaptureFrom(buf, retries + [Failed(EINTR, true)] + more);
      run == Run([], Interrupted, |retries| + 1) && Output(run) == "\nSIGINT\n" &&
      ReturnValue(run.stop) == Some(0)
  {
    RetriesAreSilent(buf, retries, [Failed(EINTR, true)] + more);
    assert retries + [Failed(EINTR, true)] + more == retries + ([Failed(EINTR, true)] + more);
  }

  /** A read error other than EAGAIN and EINTR ends the capture with -1,
      whether SIGINT was recorded or not. */
  lemma OtherErrorFails(buf: seq<uint8>, code: nat, sigint: bool, more: seq<ReadOutcome>)
    requires |buf| == HCI_MAX_EVENT_SIZE
    ensures var run := CaptureFrom(buf, [Failed(OtherErrno(code), sigint)] + more);
      run == Run([], ReadFailed(OtherErrno(code)), 1) && ReturnValue(run.stop) == Some(-1)
  {
  }

  /** `len` is not checked before the subevent code is read: an event of
      fewer than three octets is judged by a subevent code an earlier event
      left in the buffer, and when that is not 0x02 the capture ends with
      a negative `len`, so the function returns -1. */
  lemma ShortEventFails(stale: seq<uint8>, octets: seq<uint8>, more: seq<ReadOutcome>)
    requires |stale| == HCI_MAX_EVENT_SIZE && |octets| < 1 + HCI_EVENT_HDR_SIZE
    requires stale[SubeventAt] != EVT_LE_ADVERTISING_REPORT
    ensures var run := CaptureFrom(stale, [Data(octets)] + more);
      run == Run([], NotAdvertising(stale[SubeventAt], |octets| - 3), 1) && ReturnValue(run.stop) == Some(-1)
  {
    assert Receive(stale, octets)[SubeventAt] == stale[SubeventAt];
  }

  /** The report of the example below: address AA:BB:CC:DD:EE:FF (stored
      least significant octet first), flags 06 and Apple manufacturer data
      4C 00 02, RSSI octet C4. */
  function ExampleReport(): Report {
    Report([0xFF, 0xEE, 0xDD, 0xCC, 0xBB, 0xAA], [0x02, 0x01, 0x06, 0x04, 0xFF, 0x4C, 0x00, 0x02], 0xC4)
  }

  lemma ExamplePayload()
    ensures var r := ExampleReport();
      Decode(r.payload + [r.rssiOctet], |r.payload|) == [Field(0x01, [0x06]), Field(0xFF, [0x4C, 0x00, 0x02])]
  {
    var fs := [Field(0x01, [0x06]), Field(0xFF, [0x4C, 0x00, 0x02])];
    assert EncodeField(fs[1]) == [0x04, 0xFF, 0x4C, 0x00, 0x02];
    assert Encode(fs[1..]) == EncodeField(fs[1]) + Encode([]);
    assert Encode(fs) == ExampleReport().payload;
    RoundTrip(fs, 0xC4);
  }

  lemma ExampleRssi()
    ensures Width4(ExampleReport().Rssi()) == " -60"
  {
    assert Signed(0xC4) == -60;
    assert Digits(60) == "60";
  }

  /** The example report prints as ` -60 <FLAGS>06<MANUFACTURER_SPECIFIC_DATA>4C0002`
      and a newline. */
  lemma ExampleReportLine()
    ensures ReportLine(ExampleReport()) ==
      " -60" + " " + (("<FLAGS>" + "06") + ("<MANUFACTURER_SPECIFIC_DATA>" + "4C0002")) + "\n"
  {
    ExamplePayload();
    ExampleRssi();
    ScenarioText();
  }

  /** Any report event followed by SIGINT during the next read: the
      report's line, then the SIGINT notice, and the function returns 0.
      For the example report the line is the one of ExampleReportLine. */
  lemma ReportThenInterrupt(stale: seq<uint8>, r: Report, eventType: uint8, addressType: uint8)
    requires |stale| == HCI_MAX_EVENT_SIZE && Framable(r)
    ensures var run := CaptureFrom(stale, [Data(ReportEvent(r, eventType, addressType)), Failed(EINTR, true)]);
      run == Run([r], Interrupted, 2) && ReturnValue(run.stop) == Some(0) &&
      Output(run) == ReportLine(r) + "\nSIGINT\n"
  {
    ExtractReportEvent(r, eventType, addressType, stale);
    var outs := [Data(ReportEvent(r, eventType, addressType)), Failed(EINTR, true)];
    assert outs[1..] == [Failed(EINTR, true)];
    LinesOne(r);
  }

  /** A single report prints its own line and nothing else. */
  lemma LinesOne(r: Report)
    ensures Lines([r]) == ReportLine(r)
  {
    assert [r][..0] == [];
    assert "" + ReportLine(r) == ReportLine(r);
  }

  /** Whether the `k`-th `setsockopt(HCI_FILTER)` call fails, given the
      outcomes in order (`true` for a failure); calls past the end of the
      list succeed. */
  predicate SetFailsAt(outcomes: seq<bool>, k: nat) {
    k < |outcomes| && outcomes[k]
  }

  class HciSocket {
    var filter: Filter
    /** Every filter passed to `setsockopt(HCI_FILTER)`, in order, whether
        or not it was installed. */
    var calls: seq<Filter>
    const queryFails: bool
    /** The outcomes of the `setsockopt(HCI_FILTER)` calls still to come. */
    var setFails: seq<bool>
    /** The outcomes of the reads still to come. */
    var pending: seq<ReadOutcome>

    constructor (filter: Filter, queryFails: bool, setFails: seq<bool>, pending: seq<ReadOutcome>)
      ensures this.filter == filter && this.calls == []
      ensures this.queryFails == queryFails && this.setFails == setFails
      ensures this.pending == pending
    {
      this.filter := filter;
      this.calls := [];
      this.queryFails := queryFails;
      this.setFails := setFails;
      this.pending := pending;
    }

    /** `getsockopt(HCI_FILTER)` */
    method GetFilter() returns (ok: bool, f: Filter)
      ensures ok == !queryFails && f == filter
    {
      ok := !queryFails;
      f := filter;
    }

    /** `setsockopt(HCI_FILTER)`: the call is logged, takes the next
        outcome, and on success the socket carries `f`. */
    method SetFilter(f: Filter) returns (ok: bool)
      modifies this`filter, this`calls, this`setFails
      ensures ok == !SetFailsAt(old(setFails), 0)
      ensures setFails == if old(setFails) == [] then [] else old(setFails)[1..]
      ensures calls == old(calls) + [f]
      ensures filter == (if ok then f else old(filter))
    {
      ok := !SetFailsAt(setFails, 0);
      if setFails != [] {
        setFails := setFails[1..];
      }
      calls := calls + [f];
      if ok {
        filter := f;
      }
    }

    /** `read(dd, buf, sizeof(buf))`: the next outcome; a delivered event
        overwrites the front of the buffer and its length is returned, a
        failure returns -1 and sets errno. */
    method Read(buf: array<uint8>) returns (n: int, errno: Errno, sigint: bool)
      requires pending != [] && buf.Length == HCI_MAX_EVENT_SIZE
      modifies this`pending, buf
      ensures pending == old(pending)[1..]
      ensures old(pending)[0].Data? ==>
        n == ReadCount(old(pending)[0].octets) && buf[..] == Receive(old(buf[..]), old(pending)[0].octets)
      ensures old(pending)[0].Failed? ==>
        n == -1 && errno == old(pending)[0].errno && sigint == old(pending)[0].sigint && buf[..] == old(buf[..])
    {
      var outcome := pending[0];
      pending := pending[1..];
      match outcome
      case Data(octets) =>
        var count := ReadCount(octets);
        forall i | 0 <= i < count {
          buf[i] := octets[i];
        }
        n, errno, sigint := count, OtherErrno(0), false;
      case Failed(e, s) =>
        n, errno, sigint := -1, e, s;
    }
  }

  /** The line printed for an advertising report in the buffer: the RSSI
      octet after the data, then `parse_elements` on the data and its
      length. */
  method PrintReport(buf: seq<uint8>) returns (line: string)
    requires |buf| == HCI_MAX_EVENT_SIZE && Extract(buf).Advertising?
    ensures line == ReportLine(Extract(buf).report)
  {
    var n := buf[LengthAt] as nat;
    ExtractedReport(buf);
    var eir := buf[DataAt .. DataAt + n + 1];
    var rssi := Signed(eir[n]);
    var fields, text, _ := ParseElements(eir, n);
    line := Width4(rssi) + " " + text + "\n";
  }

  /** The inner loop of `print_advertising_devices`: read until a read
      delivers an event or fails for a reason other than EAGAIN, or EINTR
      without SIGINT.  `stop` is None when an event arrived, and otherwise
      says why the capture ends: SIGINT (`len` set to 0), another error
      (`len` is -1), or no more reads. */
  method ReadEvent(sock: HciSocket, buf: array<uint8>) returns (len: int, stop: Option<Stop>)
    requires buf.Length == HCI_MAX_EVENT_SIZE
    modifies sock`pending, buf
    ensures var outs := old(sock.pending); var k := LeadingRetries(outs);
      k == |outs| ==> stop == Some(TransportIdle) && sock.pending == [] && buf[..] == old(buf[..])
    ensures var outs := old(sock.pending); var k := LeadingRetries(outs);
      k < |outs| ==> sock.pending == outs[k + 1..]
    ensures var outs := old(sock.pending); var k := LeadingRetries(outs);
      k < |outs| && outs[k].Data? ==>
        stop.None? && len == ReadCount(outs[k].octets) && buf[..] == Receive(old(buf[..]), outs[k].octets)
    ensures var outs := old(sock.pending); var k := LeadingRetries(outs);
      k < |outs| && outs[k].Failed? ==>
        buf[..] == old(buf[..]) &&
        (if outs[k].errno == EINTR && outs[k].sigint then stop == Some(Interrupted) && len == 0
         else stop == Some(ReadFailed(outs[k].errno)) && len == -1)
  {
    ghost var outs := sock.pending;
    ghost var k := LeadingRetries(outs);
    ghost var i := 0;
    while true
      invariant i <= k && sock.pending == outs[i..] && buf[..] == old(buf[..])
      decreases |sock.pending|
    {
      if sock.pending == [] {
        return 0, Some(TransportIdle);
      }
      var errno, sigint;
      len, errno, sigint := sock.Read(buf);
      if len >= 0 {
        return len, None;
      }
      if errno == EINTR && sigint {
        return 0, Some(Interrupted);
      }
      if errno == EAGAIN || errno == EINTR {
        i := i + 1;
        continue;
      }
      return len, Some(ReadFailed(errno));
    }
  }

  /** One pass of the outer loop of `print_advertising_devices`: the inner
      loop reads an event, which is printed as a report, or the capture
      ends (`stop`).  `used` counts the reads made; `text` is what the
      pass prints. */
  method CaptureStep(sock: HciSocket, buf: array<uint8>)
    returns (len: int, stop: Option<Stop>, report: Option<Report>, text: string, ghost used: nat)
    requires buf.Length == HCI_MAX_EVENT_SIZE
    modifies sock`pending, buf
    ensures used <= |old(sock.pending)| && sock.pending == old(sock.pending)[used..]
    ensures stop.Some? ==>
      report.None? && CaptureFrom(old(buf[..]), old(sock.pending)) == Run([], stop.value, used) &&
      text == (if stop.value.Interrupted? then "\nSIGINT\n" else "")
    ensures stop.None? ==>
      0 < used && report.Some? && Rendered([text], [report.value]) &&
      CaptureFrom(old(buf[..]), old(sock.pending)) == After([report.value], used, CaptureFrom(buf[..], sock.pending))
    ensures stop == Some(Interrupted) ==> len == 0
    ensures stop.Some? && stop.value.ReadFailed? ==> len < 0
    ensures stop.Some? && stop.value.NotAdvertising? ==> len == stop.value.len
  {
    ghost var outs := sock.pending;
    ghost var before := buf[..];
    ghost var k := LeadingRetries(outs);
    var readStop;
    len, readStop := ReadEvent(sock, buf);
    AfterRetries([], 0, before, outs);
    if readStop.Some? {
      stop, report := readStop, None;
      text := if readStop.value.Interrupted? then "\nSIGINT\n" else "";
      if k < |outs| {
        StepReadStop([], k, before, outs[k..], readStop.value);
        used := k + 1;
      } else {
        used := k;
      }
      return;
    }

    // the read delivered an event into the buffer
    assert k < |outs| && outs[k].Data? && outs[k..][0] == outs[k];
    assert outs[k..][1..] == sock.pending;
    assert buf[..] == Receive(before, outs[k].octets);
    StepEvent([], k, before, outs[k..]);
    assert CaptureFrom(before, outs) == After([], k, CaptureFrom(before, outs[k..]));
    used := k + 1;
    len := len - (1 + HCI_EVENT_HDR_SIZE);
    match Extract(buf[..])
    case OtherSubevent(sub) =>
      stop, report, text := Some(NotAdvertising(sub, len)), None, "";
    case PastBuffer =>
      stop, report, text := Some(BufferOverrun), None, "";
    case Advertising(r) =>
      assert [] + [r] == [r];
      assert CaptureFrom(before, outs) == After([r], used, CaptureFrom(buf[..], sock.pending));
      stop, report := None, Some(r);
      text := PrintReport(buf[..]);
      assert [text][0] == ReportLine([r][0]);
  }

  /** Where the capture loop stands at the top of a pass: `consumed` of the
      outcomes `outs` are used, `reports` are printed as `out`, and the
      capture from the buffer contents `buf` with the outcomes left
      (`pending`) completes the capture from `stale`. */
  ghost predicate Progress(stale: seq<uint8>, outs: seq<ReadOutcome>, reports: seq<Report>, consumed: nat,
                           lines: seq<string>, out: string, buf: seq<uint8>, pending: seq<ReadOutcome>)
  {
    |stale| == HCI_MAX_EVENT_SIZE && |buf| == HCI_MAX_EVENT_SIZE &&
    consumed <= |outs| && pending == outs[consumed..] && out == Join(lines) && Rendered(lines, reports) &&
    After(reports, consumed, CaptureFrom(buf, pending)) == CaptureFrom(stale, outs)
  }

  /** A pass that prints report `r` keeps the loop's progress. */
  lemma PassPrints(stale: seq<uint8>, outs: seq<ReadOutcome>, reports: seq<Report>, consumed: nat,
                   lines: seq<string>, out: string, before: seq<uint8>, here: seq<ReadOutcome>,
                   r: Report, line: string, used: nat, buf: seq<uint8>)
    requires Progress(stale, outs, reports, consumed, lines, out, before, here)
    requires |buf| == HCI_MAX_EVENT_SIZE && used <= |here| && Rendered([line], [r])
    requires CaptureFrom(before, here) == After([r], used, CaptureFrom(buf, here[used..]))
    ensures Progress(stale, outs, reports + [r], consumed + used, lines + [line], out + line, buf, here[used..])
  {
    assert here[used..] == outs[consumed + used..];
    AfterReport(reports, consumed, r, used, CaptureFrom(buf, here[used..]));
    JoinAppend(lines, line);
    assert [line][0] == line && [r][0] == r;
    assert line == ReportLine([r][0]);
    RenderedAppend(lines, reports, line, r);
  }

  /** A pass that ends the capture ends it with the reports printed so far. */
  lemma PassEnds(stale: seq<uint8>, outs: seq<ReadOutcome>, reports: seq<Report>, consumed: nat,
                 lines: seq<string>, out: string, before: seq<uint8>, here: seq<ReadOutcome>, stop: Stop, used: nat)
    requires Progress(stale, outs, reports, consumed, lines, out, before, here)
    requires used <= |here| && CaptureFrom(before, here) == Run([], stop, used)
    ensures consumed + used <= |outs| && here[used..] == outs[consumed + used..]
    ensures CaptureFrom(stale, outs) == Run(reports, stop, consumed + used)
  {
    assert reports + [] == reports;
  }

  /** A pass that prints report `r` after `reports` have been printed. */
  lemma AfterReport(reports: seq<Report>, consumed: nat, r: Report, used: nat, run: Run)
    ensures After(reports, consumed, After([r], used, run)) == After(reports + [r], consumed + used, run)
  {
    assert reports + ([r] + run.reports) == (reports + [r]) + run.reports;
  }

  /** The body of `print_advertising_devices` between installing the
      narrowed filter and `done`: passes of the outer loop until one ends
      the capture.  `len` is the variable the function's return value is
      computed from. */
  method CaptureLoop(sock: HciSocket, buf: array<uint8>)
    returns (stop: Stop, reports: seq<Report>, out: string, len: int, ghost lines: seq<string>)
    requires buf.Length == HCI_MAX_EVENT_SIZE
    modifies sock`pending, buf
    ensures var run := CaptureFrom(old(buf[..]), old(sock.pending));
      stop == run.stop && reports == run.reports && sock.pending == old(sock.pending)[run.consumed..]
    ensures Rendered(lines, reports) && out == Join(lines) + (if stop.Interrupted? then "\nSIGINT\n" else "")
    ensures stop.Interrupted? ==> len == 0
    ensures stop.ReadFailed? ==> len < 0
    ensures stop.NotAdvertising? ==> len == stop.len
  {
    ghost var outs := sock.pending;
    ghost var stale := buf[..];
    ghost var consumed: nat := 0;
    reports, out, lines := [], "", [];
    while true
      invariant Progress(stale, outs, reports, consumed, lines, out, buf[..], sock.pending)
      decreases |sock.pending|
    {
      ghost var here := sock.pending;
      ghost var before := buf[..];
      var step, report, text;
      ghost var used;
      len, step, report, text, used := CaptureStep(sock, buf);
      if step.Some? {
        PassEnds(stale, outs, reports, consumed, lines, out, before, here, step.value, used);
        stop := step.value;
        out := out + text;
        return;
      }
      PassPrints(stale, outs, reports, consumed, lines, out, before, here, report.value, text, used, buf[..]);
      out := out + text;
      lines := lines + [text];
      reports := reports + [report.value];
      consumed := consumed + used;
    }
  }

  /** `print_advertising_devices`: save the socket's filter, install the LE
      Meta filter, capture, and at `done` put the saved filter back on every
      path after the narrowed one was installed. */
  method PrintAdvertisingDevices(sock: HciSocket, buf: array<uint8>)
    returns (ret: Option<int>, stop: Stop, reports: seq<Report>, out: string)
    requires buf.Length == HCI_MAX_EVENT_SIZE
    modifies sock, buf
    ensures var run := Session(!sock.queryFails, !SetFailsAt(old(sock.setFails), 0), old(buf[..]), old(sock.pending));
      stop == run.stop && reports == run.reports && out == Output(run) &&
      sock.pending == old(sock.pending)[run.consumed..] && ret == ReturnValue(stop)
    ensures sock.calls ==
      if sock.queryFails then old(sock.calls)
      else if SetFailsAt(old(sock.setFails), 0) then old(sock.calls) + [LeMetaFilter()]
      else old(sock.calls) + [LeMetaFilter(), old(sock.filter)]
    ensures sock.filter ==
      if !sock.queryFails && !SetFailsAt(old(sock.setFails), 0) && SetFailsAt(old(sock.setFails), 1)
      then LeMetaFilter() else old(sock.filter)
  {
    var ok, of := sock.GetFilter();
    if !ok {
      return Some(-1), FilterQueryFailed, [], "";
    }
    var nf := LeMetaFilter();
    ghost var outcomes := sock.setFails;
    ok := sock.SetFilter(nf);
    if !ok {
      return Some(-1), FilterInstallFailed, [], "";
    }

    var len;
    ghost var lines;
    stop, reports, out, len, lines := CaptureLoop(sock, buf);
    RenderedJoin(lines, reports);

    // done: the outcome of the restore is not looked at
    assert SetFailsAt(sock.setFails, 0) == SetFailsAt(outcomes, 1);
    ok := sock.SetFilter(of);
    if stop.BufferOverrun? || stop.TransportIdle? {
      ret := None;
    } else {
      ret := Some(if len < 0 then -1 else 0);
    }
  }
}

/** Locating the first advertising report inside a received HCI event.

    The receive buffer holds HCI_MAX_EVENT_SIZE octets.  The program skips
    the packet-indicator octet and the two-octet event header, reads the
    LE Meta subevent code, and for subevent 0x02 (LE Advertising Report,
    Bluetooth Core Specification, Volume 4, Part E, Section 7.7.65.2) takes
    the first report, which starts after the report-count octet.  The
    report layout is the packed `le_advertising_info` of BlueZ's lib/hci.h
    (not part of this model): event type, address type, six address
    octets, data length, data, and the RSSI octet after the data.

    None of these offsets is compared with the number of octets the read
    returned: whatever the buffer holds at those positions is used, octets
    left over from an earlier event included. */
module HciFrame {
  import opened Bytes

  const HCI_MAX_EVENT_SIZE: nat := 260
  const HCI_EVENT_HDR_SIZE: nat := 2
  const HCI_EVENT_PKT: uint8 := 0x04
  const EVT_LE_META_EVENT: uint8 := 0x3E
  const EVT_LE_ADVERTISING_REPORT: uint8 := 0x02

  /** Position of the LE Meta subevent code: after the packet indicator
      and the event header. */
  const SubeventAt: nat := 1 + HCI_EVENT_HDR_SIZE
  /** `meta->data + 1`: the first report, after the report count. */
  const ReportAt: nat := SubeventAt + 2
  const AddressAt: nat := ReportAt + 2
  const LengthAt: nat := AddressAt + 6
  const DataAt: nat := LengthAt + 1

  /** One advertising report: device address octets (as stored, least
      significant first), the Advertising Data payload, and the octet
      after it, which the program reads as the RSSI. */
  datatype Report = Report(address: seq<uint8>, payload: seq<uint8>, rssiOctet: uint8)
  {
    /** `int8_t rssi = info->data[info->length]` */
    function Rssi(): int {
      Signed(rssiOctet)
    }
  }

  datatype Extraction =
    | Advertising(report: Report)
    | OtherSubevent(subevent: uint8)
    /** The RSSI position lies beyond the receive buffer: the program reads
        outside the buffer there, and the model does not follow it. */
    | PastBuffer

  /** The receive buffer after a read of `octets`: the first octets are
      replaced (a longer event is cut to the buffer size), the rest keep
      what an earlier read left there. */
  function Receive(buf: seq<uint8>, octets: seq<uint8>): (r: seq<uint8>)
    ensures |r| == |buf|
  {
    if |octets| >= |buf| then octets[..|buf|] else octets + buf[|octets|..]
  }

  /** The offsets the program reads after a successful read. */
  function Extract(buf: seq<uint8>): Extraction
    requires |buf| == HCI_MAX_EVENT_SIZE
  {
    if buf[SubeventAt] != EVT_LE_ADVERTISING_REPORT then OtherSubevent(buf[SubeventAt])
    else
      var len := buf[LengthAt] as nat;
      if DataAt + len >= |buf| then PastBuffer
      else Advertising(Report(buf[AddressAt .. AddressAt + 6], buf[DataAt .. DataAt + len], buf[DataAt + len]))
  }

  /** Where an extracted report sits in the buffer: its payload and the
      RSSI octet are the `length + 1` octets from the data position. */
  lemma ExtractedReport(buf: seq<uint8>)
    requires |buf| == HCI_MAX_EVENT_SIZE && Extract(buf).Advertising?
    ensures var r := Extract(buf).report;
      DataAt + |r.payload| < |buf| && |r.payload| == buf[LengthAt] as nat &&
      buf[DataAt .. DataAt + |r.payload| + 1] == r.payload + [r.rssiOctet]
  {
  }

  /** A report small enough to be carried by one HCI event in the buffer. */
  predicate Framable(r: Report) {
    |r.address| == 6 && |r.payload| <= 243
  }

  /** The HCI event carrying one advertising report, as a controller sends
      it: packet indicator, event code, parameter length, subevent, report
      count 1, event type, address type, address, data length, data, RSSI. */
  function ReportEvent(r: Report, eventType: uint8, addressType: uint8): (frame: seq<uint8>)
    requires Framable(r)
    ensures |frame| == DataAt + |r.payload| + 1 <= HCI_MAX_EVENT_SIZE
  {
    [HCI_EVENT_PKT, EVT_LE_META_EVENT, (|r.payload| + 12) as uint8,
     EVT_LE_ADVERTISING_REPORT, 1, eventType, addressType]
    + r.address + [|r.payload| as uint8] + r.payload + [r.rssiOctet]
  }

  /** Round trip: whatever the buffer held before, receiving the event for a
      report and extracting gives that report back, its RSSI being the
      octet right after the payload. */
  lemma ExtractReportEvent(r: Report, eventType: uint8, addressType: uint8, stale: seq<uint8>)
    requires Framable(r) && |stale| == HCI_MAX_EVENT_SIZE
    ensures Extract(Receive(stale, ReportEvent(r, eventType, addressType))) == Advertising(r)
  {
    var frame := ReportEvent(r, eventType, addressType);
    var buf := Receive(stale, frame);
    var len := |r.payload|;
    assert buf[..|frame|] == frame;
    assert frame[SubeventAt] == EVT_LE_ADVERTISING_REPORT;
    assert frame[LengthAt] as nat == len;
    assert frame[AddressAt .. AddressAt + 6] == r.address;
    assert frame[DataAt .. DataAt + len] == r.payload;
    assert frame[DataAt + len] == r.rssiOctet;
    assert buf[AddressAt .. AddressAt + 6] == frame[AddressAt .. AddressAt + 6];
    assert buf[DataAt .. DataAt + len] == frame[DataAt .. DataAt + len];
  }

  /** Only the subevent code and the octets from the address on are
      consulted: the packet indicator, event code and parameter length
      (left to the socket filter), the report count (further reports are
      ignored), event type and address type make no difference. */
  lemma ExtractIgnoresHeader(buf: seq<uint8>, other: seq<uint8>)
    requires |buf| == HCI_MAX_EVENT_SIZE && |other| == HCI_MAX_EVENT_SIZE
    requires buf[SubeventAt] == other[SubeventAt] && buf[AddressAt..] == other[AddressAt..]
    ensures Extract(buf) == Extract(other)
  {
    assert forall i :: AddressAt <= i < |buf| ==> buf[i] == buf[AddressAt..][i - AddressAt];
    assert buf[AddressAt .. AddressAt + 6] == other[AddressAt .. AddressAt + 6];
    var len := buf[LengthAt] as nat;
    if DataAt + len < |buf| {
      assert buf[DataAt .. DataAt + len] == other[DataAt .. DataAt + len];
    }
  }

  /** The received length is never consulted: a read that returns only the
      four octets up to the subevent code still yields a report, built from
      octets an earlier event left in the buffer. */
  lemma ShortReadUsesStaleOctets(stale: seq<uint8>)
    requires |stale| == HCI_MAX_EVENT_SIZE
    requires DataAt + stale[LengthAt] as nat < HCI_MAX_EVENT_SIZE
    ensures var len := stale[LengthAt] as nat;
      Extract(Receive(stale, [HCI_EVENT_PKT, EVT_LE_META_EVENT, 1, EVT_LE_ADVERTISING_REPORT])) ==
      Advertising(Report(stale[AddressAt .. AddressAt + 6], stale[DataAt .. DataAt + len], stale[DataAt + len]))
  {
    var short := [HCI_EVENT_PKT, EVT_LE_META_EVENT, 1, EVT_LE_ADVERTISING_REPORT];
    var buf := Receive(stale, short);
    assert buf[SubeventAt] == EVT_LE_ADVERTISING_REPORT;
    assert buf[4..] == stale[4..];
    ExtractIgnoresHeader(buf, stale[SubeventAt := EVT_LE_ADVERTISING_REPORT]);
    assert stale[SubeventAt := EVT_LE_ADVERTISING_REPORT][AddressAt..] == stale[AddressAt..];
  }

  /** The data length octet is trusted: a length of 246 or more puts the
      RSSI position outside the 260-octet buffer. */
  lemma LongLengthLeavesBuffer(buf: seq<uint8>)
    requires |buf| == HCI_MAX_EVENT_SIZE
    requires buf[SubeventAt] == EVT_LE_ADVERTISING_REPORT && buf[LengthAt] >= 246
    ensures Extract(buf) == PastBuffer
  {
  }
}

/**
 * Finding the uDMX among the attached USB devices (`findDevice`).
 *
 * The uDMX uses the shared VID/PID pair 0x16C0/0x05DC, so a device with
 * those IDs is opened and accepted only if its manufacturer string is
 * "www.anyma.ch" and its product string "uDMX". The enumeration is a
 * sequence of buses, each a sequence of candidates; what a candidate does
 * when opened and queried is part of the candidate.
 */
module DeviceScan {
  import opened Bytes
  import opened StringDescriptor

  const SharedVendor := 0x16C0
  const SharedProduct := 0x05DC
  /** Size of the string buffer shared by every query of the scan. */
  const StringBufferSize := 256

  /** The manufacturer string of the uDMX, "www.anyma.ch", as bytes. */
  function ManufacturerName(): seq<byte> {
    [119, 119, 119, 46, 97, 110, 121, 109, 97, 46, 99, 104]
  }

  /** The product string of the uDMX, "uDMX", as bytes. */
  function ProductName(): seq<byte> {
    [117, 68, 77, 88]
  }

  datatype Option<T> = None | Some(value: T)

  /**
   * One enumerated device: its descriptor IDs, whether `usb_open`
   * succeeds, and its answers to the manufacturer and product queries.
   */
  datatype Candidate = Candidate(idVendor: int, idProduct: int, opens: bool,
                                 manufacturer: Reply, product: Reply)

  /** Where a candidate sits in the enumeration. */
  datatype Pos = Pos(bus: nat, dev: nat)

  /** Lexicographic order: bus first, then device. */
  predicate Before(p: Pos, q: Pos) {
    p.bus < q.bus || (p.bus == q.bus && p.dev < q.dev)
  }

  datatype Entry = Entry(pos: Pos, cand: Candidate)

  /** The handle operations of the scan. */
  datatype UsbEvent = Opened(at: Pos) | Closed(at: Pos)

  /** The candidates from bus `b`, device `d` on, in scan order. */
  function FlatFrom(buses: seq<seq<Candidate>>, b: nat, d: nat): seq<Entry>
    decreases |buses| - b, if b < |buses| then |buses[b]| - d else 0
  {
    if b >= |buses| then []
    else if d >= |buses[b]| then FlatFrom(buses, b + 1, 0)
    else [Entry(Pos(b, d), buses[b][d])] + FlatFrom(buses, b, d + 1)
  }

  /** Every candidate on every bus, in the order the scan visits them. */
  function Enumerate(buses: seq<seq<Candidate>>): seq<Entry> {
    FlatFrom(buses, 0, 0)
  }

  /** Every entry of `r` is a real candidate at or after (b, d), stored under its own position. */
  predicate SoundFrom(buses: seq<seq<Candidate>>, b: nat, d: nat, r: seq<Entry>) {
    forall i | 0 <= i < |r| ::
      && b <= r[i].pos.bus < |buses| && r[i].pos.dev < |buses[r[i].pos.bus]|
      && (r[i].pos.bus == b ==> d <= r[i].pos.dev)
      && r[i].cand == buses[r[i].pos.bus][r[i].pos.dev]
  }

  lemma {:induction false} FlatFromSound(buses: seq<seq<Candidate>>, b: nat, d: nat)
    ensures SoundFrom(buses, b, d, FlatFrom(buses, b, d))
    decreases |buses| - b, if b < |buses| then |buses[b]| - d else 0
  {
    if b < |buses| {
      if d >= |buses[b]| {
        FlatFromSound(buses, b + 1, 0);
        assert FlatFrom(buses, b, d) == FlatFrom(buses, b + 1, 0);
      } else {
        FlatFromSound(buses, b, d + 1);
        var r := FlatFrom(buses, b, d);
        var rest := FlatFrom(buses, b, d + 1);
        assert r == [Entry(Pos(b, d), buses[b][d])] + rest;
        forall i | 1 <= i < |r| ensures r[i] == rest[i - 1] { }
      }
    }
  }

  predicate InScanOrder(r: seq<Entry>) {
    forall i, j | 0 <= i < j < |r| :: Before(r[i].pos, r[j].pos)
  }

  /** The scan visits candidates in strictly increasing bus-then-device order. */
  lemma {:induction false} FlatFromOrdered(buses: seq<seq<Candidate>>, b: nat, d: nat)
    ensures InScanOrder(FlatFrom(buses, b, d))
    decreases |buses| - b, if b < |buses| then |buses[b]| - d else 0
  {
    if b < |buses| {
      if d >= |buses[b]| {
        FlatFromOrdered(buses, b + 1, 0);
        var r := FlatFrom(buses, b, d);
        assert r == FlatFrom(buses, b + 1, 0);
      } else {
        var rest := FlatFrom(buses, b, d + 1);
        var r := FlatFrom(buses, b, d);
        FlatFromOrdered(buses, b, d + 1);
        FlatFromSound(buses, b, d + 1);
        assert r == [Entry(Pos(b, d), buses[b][d])] + rest;
        forall i, j | 0 <= i < j < |r| ensures Before(r[i].pos, r[j].pos) {
          if i == 0 {
            assert r[j] == rest[j - 1];
            assert r[i].pos == Pos(b, d);
            assert rest[j - 1].pos.bus >= b;
            assert rest[j - 1].pos.bus == b ==> rest[j - 1].pos.dev >= d + 1;
          } else {
            assert r[i] == rest[i - 1] && r[j] == rest[j - 1];
          }
        }
      }
    }
  }

  /** The scan visits every candidate from (b, d) on. */
  lemma {:induction false} FlatFromComplete(buses: seq<seq<Candidate>>, b: nat, d: nat, p: Pos)
    requires p.bus < |buses| && p.dev < |buses[p.bus]|
    requires b < p.bus || (b == p.bus && d <= p.dev)
    ensures exists i | 0 <= i < |FlatFrom(buses, b, d)| :: FlatFrom(buses, b, d)[i].pos == p
    decreases |buses| - b, if b < |buses| then |buses[b]| - d else 0
  {
    var r := FlatFrom(buses, b, d);
    if d >= |buses[b]| {
      FlatFromComplete(buses, b + 1, 0, p);
    } else if p == Pos(b, d) {
      assert r[0].pos == p;
    } else {
      FlatFromComplete(buses, b, d + 1, p);
      var i :| 0 <= i < |FlatFrom(buses, b, d + 1)| && FlatFrom(buses, b, d + 1)[i].pos == p;
      assert r[i + 1].pos == p;
    }
  }

  /** One query into the shared string buffer. */
  function Query(q: Reply, s: seq<byte>): (r: Outcome)
    requires |s| == StringBufferSize
    ensures |r.buf| == StringBufferSize
  {
    GetString(q.bytes, q.rval, StringBufferSize, s)
  }

  /** What the scan does with one candidate, and the string buffer it leaves behind. */
  datatype Verdict = Skipped | Rejected(buf: seq<byte>) | Accepted

  /** The IDs match and the device opens. */
  predicate Admitted(c: Candidate) {
    c.idVendor == SharedVendor && c.idProduct == SharedProduct && c.opens
  }

  /**
   * The check of one candidate against the string buffer `s` left by
   * the previous queries. A query that fails (negative result) rejects
   * the candidate; one that returns 0 without writing leaves `s` as it was
   * for the comparison that follows.
   */
  function Examine(c: Candidate, s: seq<byte>): (v: Verdict)
    requires |s| == StringBufferSize
    ensures v.Rejected? ==> |v.buf| == StringBufferSize
    ensures v == Skipped <==> !Admitted(c)
  {
    if !Admitted(c) then Skipped
    else
      var m := Query(c.manufacturer, s);
      if m.len < 0 || CString(m.buf) != ManufacturerName() then Rejected(m.buf)
      else
        var p := Query(c.product, m.buf);
        if p.len < 0 || CString(p.buf) != ProductName() then Rejected(p.buf)
        else Accepted
  }

  /** The handle found, if any, and the log of opens and closes. */
  datatype ScanResult = ScanResult(found: Option<Pos>, log: seq<UsbEvent>)

  /** The scan of `entries`, starting from string buffer contents `s`. */
  function ScanList(entries: seq<Entry>, s: seq<byte>): ScanResult
    requires |s| == StringBufferSize
  {
    if entries == [] then ScanResult(None, [])
    else
      var e := entries[0];
      match Examine(e.cand, s)
      case Skipped => ScanList(entries[1..], s)
      case Rejected(s') =>
        var r := ScanList(entries[1..], s');
        ScanResult(r.found, [Opened(e.pos), Closed(e.pos)] + r.log)
      case Accepted => ScanResult(Some(e.pos), [Opened(e.pos)])
  }

  /** A scan result preceded by the events `log`. */
  function After(log: seq<UsbEvent>, r: ScanResult): ScanResult {
    ScanResult(r.found, log + r.log)
  }

  /**
   * The string checks of an opened candidate: the manufacturer string
   * first, then, if it matched, the product string, both read through
   * the shared buffer `str`. On a rejection `str` holds what the queries
   * left in it.
   */
  method QueryStrings(dev: Candidate, str: array<byte>) returns (isUdmx: bool)
    requires Admitted(dev) && str.Length == StringBufferSize
    modifies str
    ensures isUdmx ==> Examine(dev, old(str[..])) == Accepted
    ensures !isUdmx ==> Examine(dev, old(str[..])) == Rejected(str[..])
  {
    ghost var m := Query(dev.manufacturer, str[..]);
    isUdmx := false;
    label skipDevice: {
      var buffer, rval := DescriptorTransfer(dev.manufacturer);
      var len := GetStringAscii(buffer, rval, str, StringBufferSize);
      assert len == m.len && str[..] == m.buf;
      if len < 0 {
        break skipDevice;
      }
      if CString(str[..]) != ManufacturerName() {
        break skipDevice;
      }
      ghost var p := Query(dev.product, m.buf);
      buffer, rval := DescriptorTransfer(dev.product);
      len := GetStringAscii(buffer, rval, str, StringBufferSize);
      assert len == p.len && str[..] == p.buf;
      if len < 0 {
        break skipDevice;
      }
      isUdmx := CString(str[..]) == ProductName();
    }
  }

  /**
   * `findDevice`: scans buses, then devices, and returns the first
   * candidate that is accepted. `initial` is the uninitialised contents of
   * the string buffer. The ghost `log` records every open and close.
   */
  method FindDevice(buses: seq<seq<Candidate>>, initial: seq<byte>) returns (handle: Option<Pos>, ghost log: seq<UsbEvent>)
    requires |initial| == StringBufferSize
    ensures handle == ScanList(Enumerate(buses), initial).found
    ensures log == ScanList(Enumerate(buses), initial).log
  {
    ghost var whole := ScanList(Enumerate(buses), initial);
    var str := new byte[StringBufferSize](k requires 0 <= k < StringBufferSize => initial[k]);
    handle := None;
    log := [];
    assert str[..] == initial;
    AfterNothing(whole);
    var b := 0;
    while b < |buses|
      invariant 0 <= b <= |buses| && str.Length == StringBufferSize
      invariant handle == None
      invariant whole == After(log, ScanList(FlatFrom(buses, b, 0), str[..]))
    {
      var d := 0;
      while d < |buses[b]|
        invariant 0 <= d <= |buses[b]|
        invariant handle == None
        invariant whole == After(log, ScanList(FlatFrom(buses, b, d), str[..]))
      {
        ghost var s0 := str[..];
        ghost var events;
        handle, events := VisitDevice(buses, b, d, str);
        VisitStep(buses, b, d, s0, str[..], log, handle, events);
        log := log + events;
        if handle.Some? {
          break;
        }
        d := d + 1;
      }
      if handle.Some? {
        break;
      }
      BusEnd(buses, b, d, str[..], log);
      b := b + 1;
    }
  }

  /**
   * The body of the device loop for device `d` on bus `b`: open it if the
   * IDs match, query its strings, and close it again unless it is the uDMX.
   * `events` are the opens and closes it performs.
   */
  method VisitDevice(buses: seq<seq<Candidate>>, b: nat, d: nat, str: array<byte>)
    returns (handle: Option<Pos>, ghost events: seq<UsbEvent>)
    requires b < |buses| && d < |buses[b]| && str.Length == StringBufferSize
    modifies str
    ensures handle.Some? <==> Examine(buses[b][d], old(str[..])) == Accepted
    ensures handle.Some? ==> handle == Some(Pos(b, d)) && events == [Opened(Pos(b, d))]
    ensures Examine(buses[b][d], old(str[..])) == Skipped ==> events == [] && str[..] == old(str[..])
    ensures Examine(buses[b][d], old(str[..])).Rejected? ==>
      && Examine(buses[b][d], old(str[..])) == Rejected(str[..])
      && events == [Opened(Pos(b, d)), Closed(Pos(b, d))]
  {
    var dev := buses[b][d];
    events := [];
    handle := None;
    if dev.idVendor == SharedVendor && dev.idProduct == SharedProduct {
      // usb_open: a handle, or none when the device cannot be opened
      handle := if dev.opens then Some(Pos(b, d)) else None;
      if handle == None {
        return;
      }
      events := [Opened(Pos(b, d))];
      var isUdmx := QueryStrings(dev, str);
      if isUdmx {
        return;
      }
      // usb_close
      events := events + [Closed(Pos(b, d))];
      handle := None;
    }
  }

  /** One visit, as `VisitDevice` reports it, is one step of `ScanList`. */
  lemma VisitStep(buses: seq<seq<Candidate>>, b: nat, d: nat, s0: seq<byte>, s1: seq<byte>,
                  log: seq<UsbEvent>, handle: Option<Pos>, events: seq<UsbEvent>)
    requires b < |buses| && d < |buses[b]| && |s0| == StringBufferSize && |s1| == StringBufferSize
    requires handle.Some? <==> Examine(buses[b][d], s0) == Accepted
    requires handle.Some? ==> handle == Some(Pos(b, d)) && events == [Opened(Pos(b, d))]
    requires Examine(buses[b][d], s0) == Skipped ==> events == [] && s1 == s0
    requires Examine(buses[b][d], s0).Rejected? ==>
      Examine(buses[b][d], s0) == Rejected(s1) && events == [Opened(Pos(b, d)), Closed(Pos(b, d))]
    ensures handle.Some? ==> After(log, ScanList(FlatFrom(buses, b, d), s0)) == ScanResult(handle, log + events)
    ensures handle == None ==>
      After(log, ScanList(FlatFrom(buses, b, d), s0)) == After(log + events, ScanList(FlatFrom(buses, b, d + 1), s1))
  {
    match Examine(buses[b][d], s0)
    case Skipped =>
      SkipStep(buses, b, d, s0, log);
      assert log + events == log;
    case Accepted =>
      AcceptStep(buses, b, d, s0, log);
    case Rejected(_) =>
      RejectStep(buses, b, d, s0, s1, log);
  }

  lemma AfterNothing(r: ScanResult)
    ensures After([], r) == r
  {
    assert [] + r.log == r.log;
  }

  lemma BusEnd(buses: seq<seq<Candidate>>, b: nat, d: nat, s: seq<byte>, log: seq<UsbEvent>)
    requires b < |buses| && d >= |buses[b]| && |s| == StringBufferSize
    ensures After(log, ScanList(FlatFrom(buses, b, d), s)) == After(log, ScanList(FlatFrom(buses, b + 1, 0), s))
  {
    assert FlatFrom(buses, b, d) == FlatFrom(buses, b + 1, 0);
  }

  lemma SkipStep(buses: seq<seq<Candidate>>, b: nat, d: nat, s: seq<byte>, log: seq<UsbEvent>)
    requires b < |buses| && d < |buses[b]| && |s| == StringBufferSize
    requires Examine(buses[b][d], s) == Skipped
    ensures After(log, ScanList(FlatFrom(buses, b, d), s)) == After(log, ScanList(FlatFrom(buses, b, d + 1), s))
  {
    assert FlatFrom(buses, b, d)[1..] == FlatFrom(buses, b, d + 1);
  }

  lemma AcceptStep(buses: seq<seq<Candidate>>, b: nat, d: nat, s: seq<byte>, log: seq<UsbEvent>)
    requires b < |buses| && d < |buses[b]| && |s| == StringBufferSize
    requires Examine(buses[b][d], s) == Accepted
    ensures After(log, ScanList(FlatFrom(buses, b, d), s)) == ScanResult(Some(Pos(b, d)), log + [Opened(Pos(b, d))])
  {
  }

  lemma RejectStep(buses: seq<seq<Candidate>>, b: nat, d: nat, s: seq<byte>, s': seq<byte>, log: seq<UsbEvent>)
    requires b < |buses| && d < |buses[b]| && |s| == StringBufferSize
    requires Examine(buses[b][d], s) == Rejected(s')
    ensures After(log, ScanList(FlatFrom(buses, b, d), s)) ==
      After(log + [Opened(Pos(b, d)), Closed(Pos(b, d))], ScanList(FlatFrom(buses, b, d + 1), s'))
  {
    assert FlatFrom(buses, b, d)[1..] == FlatFrom(buses, b, d + 1);
  }

  /** The open and close events come in pairs: each open is closed right after. */
  predicate Paired(log: seq<UsbEvent>) {
    && |log| % 2 == 0
    && forall k | 0 <= k < |log| / 2 :: log[2 * k].Opened? && log[2 * k + 1] == Closed(log[2 * k].at)
  }

  /**
   * Handle discipline: every rejected candidate was closed after it was
   * opened, and the accepted one, if any, is opened last and left open.
   */
  predicate Disciplined(r: ScanResult) {
    match r.found
    case None => Paired(r.log)
    case Some(p) => |r.log| > 0 && r.log[|r.log| - 1] == Opened(p) && Paired(r.log[..|r.log| - 1])
  }

  lemma PairedCons(p: Pos, log: seq<UsbEvent>)
    requires Paired(log)
    ensures Paired([Opened(p), Closed(p)] + log)
  {
    var l := [Opened(p), Closed(p)] + log;
    forall k | 0 <= k < |l| / 2 ensures l[2 * k].Opened? && l[2 * k + 1] == Closed(l[2 * k].at) {
      if k > 0 {
        assert l[2 * k] == log[2 * (k - 1)] && l[2 * k + 1] == log[2 * (k - 1) + 1];
      }
    }
  }

  /** The scan never leaves a handle open except the one it returns. */
  lemma {:induction false} ScanDisciplined(entries: seq<Entry>, s: seq<byte>)
    requires |s| == StringBufferSize
    ensures Disciplined(ScanList(entries, s))
  {
    if entries != [] {
      var e := entries[0];
      match Examine(e.cand, s)
      case Skipped =>
        ScanDisciplined(entries[1..], s);
      case Rejected(s') =>
        ScanDisciplined(entries[1..], s');
        var r := ScanList(entries[1..], s');
        var pair := [Opened(e.pos), Closed(e.pos)];
        match r.found {
          case None =>
            PairedCons(e.pos, r.log);
          case Some(p) =>
            PairedCons(e.pos, r.log[..|r.log| - 1]);
            assert (pair + r.log)[..|pair + r.log| - 1] == pair + r.log[..|r.log| - 1];
        }
      case Accepted =>
        assert ScanList(entries, s).log[..0] == [];
    }
  }

  /** Only a candidate that matches the IDs and opens is ever returned. */
  lemma {:induction false} FoundAdmitted(entries: seq<Entry>, s: seq<byte>)
    requires |s| == StringBufferSize
    requires ScanList(entries, s).found.Some?
    ensures exists i | 0 <= i < |entries| ::
      entries[i].pos == ScanList(entries, s).found.value && Admitted(entries[i].cand)
  {
    var e := entries[0];
    match Examine(e.cand, s)
    case Skipped =>
      FoundAdmitted(entries[1..], s);
      var i :| 0 <= i < |entries[1..]| && entries[1..][i].pos == ScanList(entries, s).found.value
        && Admitted(entries[1..][i].cand);
      assert entries[i + 1] == entries[1..][i];
    case Rejected(s') =>
      FoundAdmitted(entries[1..], s');
      var i :| 0 <= i < |entries[1..]| && entries[1..][i].pos == ScanList(entries, s).found.value
        && Admitted(entries[1..][i].cand);
      assert entries[i + 1] == entries[1..][i];
    case Accepted =>
      assert entries[0].pos == ScanList(entries, s).found.value;
  }

  /** Without a candidate that matches the IDs and opens, nothing is opened and nothing found. */
  lemma {:induction false} NoneAdmitted(entries: seq<Entry>, s: seq<byte>)
    requires |s| == StringBufferSize
    requires forall i | 0 <= i < |entries| :: !Admitted(entries[i].cand)
    ensures ScanList(entries, s) == ScanResult(None, [])
  {
    if entries != [] {
      assert !Admitted(entries[0].cand);
      NoneAdmitted(entries[1..], s);
    }
  }

  /** The reply delivered a string descriptor: the transfer worked and the type byte is STRING. */
  predicate WellTyped(q: Reply) {
    q.rval >= 0 && q.bytes[1] == DtString
  }

  /** The C string a well-typed reply decodes to. */
  function Said(q: Reply): seq<byte>
    requires WellTyped(q)
  {
    CString(DecodedChars(q.bytes, q.rval, StringBufferSize))
  }

  /** A well-typed query writes its decoding, NUL-terminated, so the string the comparison sees is the decoding. */
  lemma WellTypedQuery(q: Reply, s: seq<byte>)
    requires |s| == StringBufferSize && WellTyped(q)
    ensures Query(q, s).len >= 0
    ensures CString(Query(q, s).buf) == Said(q)
  {
    var d := DecodedChars(q.bytes, q.rval, StringBufferSize);
    CStringOfTerminated(d, s[|d| + 1..]);
  }

  /** Both replies are well typed and decode to the uDMX's manufacturer and product strings. */
  predicate Genuine(c: Candidate) {
    && WellTyped(c.manufacturer) && WellTyped(c.product)
    && Said(c.manufacturer) == ManufacturerName() && Said(c.product) == ProductName()
  }

  /**
   * With well-typed replies the verdict does not depend on what the buffer
   * held before: a candidate that opens is accepted exactly when it is genuine.
   */
  lemma WellTypedVerdict(c: Candidate, s: seq<byte>)
    requires |s| == StringBufferSize && Admitted(c)
    requires WellTyped(c.manufacturer) && WellTyped(c.product)
    ensures Examine(c, s) == Accepted <==> Genuine(c)
  {
    WellTypedQuery(c.manufacturer, s);
    WellTypedQuery(c.product, Query(c.manufacturer, s).buf);
  }

  /**
   * A query answered with a zero-length result of the wrong descriptor type
   * writes nothing, so the manufacturer check reads whatever the previous
   * candidate's queries left in the buffer: after a buffer that holds
   * "www.anyma.ch", such a device passes that check.
   */
  lemma StaleManufacturerAccepted(c: Candidate, s: seq<byte>)
    requires |s| == StringBufferSize && Admitted(c)
    requires CString(s) == ManufacturerName()
    requires c.manufacturer.rval >= 0 && c.manufacturer.bytes[1] != DtString
    requires WellTyped(c.product) && Said(c.product) == ProductName()
    ensures Examine(c, s) == Accepted
  {
    WellTypedQuery(c.product, s);
  }

  /**
   * The reply either failed (negative transfer result) or delivered a string
   * descriptor; it is not a successful transfer of another descriptor type.
   */
  predicate Answered(q: Reply) {
    q.rval < 0 || q.bytes[1] == DtString
  }

  /**
   * With a manufacturer reply that failed or is well typed, the verdict does
   * not depend on what the buffer held before: a candidate that opens is
   * accepted exactly when it is genuine. A failed query rejects whatever the
   * buffer holds; a wrong-typed product reply leaves "www.anyma.ch" in the
   * buffer, which is not "uDMX".
   */
  lemma AnsweredVerdict(c: Candidate, s: seq<byte>)
    requires |s| == StringBufferSize && Admitted(c)
    requires Answered(c.manufacturer)
    ensures Examine(c, s) == Accepted <==> Genuine(c)
  {
    if WellTyped(c.manufacturer) {
      WellTypedQuery(c.manufacturer, s);
      if WellTyped(c.product) {
        WellTypedQuery(c.product, Query(c.manufacturer, s).buf);
      }
    }
  }

  /** The manufacturer reply of every candidate that opens either failed or is well typed. */
  predicate AllAnswered(entries: seq<Entry>) {
    forall i | 0 <= i < |entries| :: Admitted(entries[i].cand) ==> Answered(entries[i].cand.manufacturer)
  }

  /** Reference definition: the position of the first candidate that opens and is genuine. */
  function FirstGenuine(entries: seq<Entry>): (p: Option<Pos>)
    ensures p.Some? ==> exists i | 0 <= i < |entries| :: entries[i].pos == p.value
  {
    if entries == [] then None
    else if Admitted(entries[0].cand) && Genuine(entries[0].cand) then Some(entries[0].pos)
    else
      var p := FirstGenuine(entries[1..]);
      assert p.Some? ==> exists i | 0 <= i < |entries[1..]| :: entries[1..][i].pos == p.value;
      assert forall i | 0 <= i < |entries[1..]| :: entries[1..][i] == entries[i + 1];
      p
  }

  /**
   * Unless some candidate that opens answers the manufacturer query
   * successfully with another descriptor type, the scan returns the first
   * genuine candidate that opens; candidates whose queries fail, or whose
   * product reply has another type, are rejected on the way.
   */
  lemma {:induction false} FindsFirstGenuine(entries: seq<Entry>, s: seq<byte>)
    requires |s| == StringBufferSize && AllAnswered(entries)
    ensures ScanList(entries, s).found == FirstGenuine(entries)
  {
    if entries != [] {
      var c := entries[0].cand;
      assert AllAnswered(entries[1..]) by {
        forall i | 0 <= i < |entries[1..]| && Admitted(entries[1..][i].cand)
          ensures Answered(entries[1..][i].cand.manufacturer)
        {
          assert entries[1..][i] == entries[i + 1];
        }
      }
      if Admitted(c) {
        AnsweredVerdict(c, s);
        match Examine(c, s)
        case Rejected(s') =>
          FindsFirstGenuine(entries[1..], s');
        case Accepted =>
      } else {
        FindsFirstGenuine(entries[1..], s);
      }
    }
  }

  /** Every event of the scan of `entries` concerns a position strictly after `q`. */
  lemma {:induction false} LoggedAfter(entries: seq<Entry>, s: seq<byte>, q: Pos)
    requires |s| == StringBufferSize
    requires forall i | 0 <= i < |entries| :: Before(q, entries[i].pos)
    ensures forall k | 0 <= k < |ScanList(entries, s).log| :: Before(q, ScanList(entries, s).log[k].at)
  {
    if entries != [] {
      var e := entries[0];
      var tail := entries[1..];
      assert forall i | 0 <= i < |tail| :: Before(q, tail[i].pos) by {
        forall i | 0 <= i < |tail| ensures Before(q, tail[i].pos) {
          assert tail[i] == entries[i + 1];
        }
      }
      match Examine(e.cand, s)
      case Skipped =>
        LoggedAfter(tail, s, q);
      case Rejected(s') =>
        LoggedAfter(tail, s', q);
        var rest := ScanList(tail, s').log;
        var log := [Opened(e.pos), Closed(e.pos)] + rest;
        forall k | 0 <= k < |log| ensures Before(q, log[k].at) {
          if k >= 2 {
            assert log[k] == rest[k - 2];
          }
        }
      case Accepted =>
    }
  }

  /** Two events on the same candidate are the open and the close of one pair. */
  predicate EachOnce(log: seq<UsbEvent>) {
    forall k, l | 0 <= k < l < |log| && log[k].at == log[l].at :: l == k + 1 && k % 2 == 0
  }

  /** In scan order, every rejected candidate is opened once and closed once, and the accepted one opened once. */
  lemma {:induction false} ScanEventsOnce(entries: seq<Entry>, s: seq<byte>)
    requires |s| == StringBufferSize && InScanOrder(entries)
    ensures EachOnce(ScanList(entries, s).log)
  {
    if entries != [] {
      var e := entries[0];
      var tail := entries[1..];
      assert forall i | 0 <= i < |tail| :: tail[i] == entries[i + 1];
      assert InScanOrder(tail);
      match Examine(e.cand, s)
      case Skipped =>
        ScanEventsOnce(tail, s);
      case Rejected(s') =>
        ScanEventsOnce(tail, s');
        LoggedAfter(tail, s', e.pos);
        var rest := ScanList(tail, s').log;
        var log := [Opened(e.pos), Closed(e.pos)] + rest;
        forall k, l | 0 <= k < l < |log| && log[k].at == log[l].at ensures l == k + 1 && k % 2 == 0 {
          if l >= 2 {
            assert log[l] == rest[l - 2];
            if k >= 2 {
              assert log[k] == rest[k - 2];
            } else {
              assert false;
            }
          }
        }
      case Accepted =>
    }
  }

  /**
   * What `findDevice` returns for the attached buses: a handle on a device
   * that exists, matches the IDs and opened, with every other handle it
   * opened closed again; or no handle and nothing left open.
   */
  lemma FindDeviceOutcome(buses: seq<seq<Candidate>>, s: seq<byte>)
    requires |s| == StringBufferSize
    ensures Disciplined(ScanList(Enumerate(buses), s))
    ensures EachOnce(ScanList(Enumerate(buses), s).log)
    ensures var found := ScanList(Enumerate(buses), s).found;
      found.Some? ==>
        found.value.bus < |buses| && found.value.dev < |buses[found.value.bus]|
        && Admitted(buses[found.value.bus][found.value.dev])
  {
    ScanDisciplined(Enumerate(buses), s);
    FlatFromOrdered(buses, 0, 0);
    ScanEventsOnce(Enumerate(buses), s);
    var r := ScanList(Enumerate(buses), s);
    if r.found.Some? {
      FoundAdmitted(Enumerate(buses), s);
      FlatFromSound(buses, 0, 0);
      var i :| 0 <= i < |Enumerate(buses)| && Enumerate(buses)[i].pos == r.found.value
        && Admitted(Enumerate(buses)[i].cand);
    }
  }

  /** A candidate that matches the IDs but cannot be opened is passed over: no event, buffer untouched. */
  lemma OpenFailureSkipped(p: Pos, c: Candidate, rest: seq<Entry>, s: seq<byte>)
    requires |s| == StringBufferSize && !c.opens
    ensures ScanList([Entry(p, c)] + rest, s) == ScanList(rest, s)
  {
    assert ([Entry(p, c)] + rest)[1..] == rest;
  }

  /**
   * The scan stops at the candidate it accepts: every event before the
   * final open concerns a candidate that comes earlier in scan order, so no
   * later candidate is ever opened.
   */
  lemma {:induction false} NothingOpenedAfterFound(entries: seq<Entry>, s: seq<byte>)
    requires |s| == StringBufferSize && InScanOrder(entries)
    requires ScanList(entries, s).found.Some?
    ensures var r := ScanList(entries, s);
      forall k | 0 <= k < |r.log| - 1 :: Before(r.log[k].at, r.found.value)
  {
    var e := entries[0];
    var tail := entries[1..];
    assert InScanOrder(tail) by {
      forall i, j | 0 <= i < j < |tail| ensures Before(tail[i].pos, tail[j].pos) {
        assert tail[i] == entries[i + 1] && tail[j] == entries[j + 1];
      }
    }
    match Examine(e.cand, s)
    case Skipped =>
      NothingOpenedAfterFound(tail, s);
    case Rejected(s') =>
      NothingOpenedAfterFound(tail, s');
      var r := ScanList(tail, s');
      FoundAdmitted(tail, s');
      var i :| 0 <= i < |tail| && tail[i].pos == r.found.value && Admitted(tail[i].cand);
      assert entries[i + 1] == tail[i];
      var log := [Opened(e.pos), Closed(e.pos)] + r.log;
      forall k | 0 <= k < |log| - 1 ensures Before(log[k].at, r.found.value) {
        if k >= 2 {
          assert log[k] == r.log[k - 2];
        }
      }
    case Accepted =>
  }

  /**
   * The reply of a device that sends the descriptor of a Latin-1 name; `tail`
   * is what the transfer buffer holds beyond the descriptor.
   */
  function NameReply(name: seq<byte>, tail: seq<byte>): (q: Reply)
    requires |name| <= MaxChars && |tail| == TailLength(|name|)
    ensures WellTyped(q)
  {
    StringReply(2 + 2 * |name|, Descriptor(Widen(name), tail))
  }

  /** Such a reply makes the comparison see exactly the name, if it holds no NUL. */
  lemma NameReplySaysName(name: seq<byte>, tail: seq<byte>)
    requires |name| <= MaxChars && |tail| == TailLength(|name|) && NoNulBytes(name)
    ensures Said(NameReply(name, tail)) == name
  {
    Latin1RoundTrip(name, tail, StringBufferSize);
    CStringOfNulFree(name);
  }

  /** A uDMX that answers with the descriptors of its two names is genuine, whatever else its transfer buffers hold. */
  lemma RealUdmxIsGenuine(c: Candidate, mtail: seq<byte>, ptail: seq<byte>)
    requires |mtail| == TailLength(|ManufacturerName()|) && |ptail| == TailLength(|ProductName()|)
    requires c.manufacturer == NameReply(ManufacturerName(), mtail)
    requires c.product == NameReply(ProductName(), ptail)
    ensures Genuine(c)
  {
    NameReplySaysName(ManufacturerName(), mtail);
    NameReplySaysName(ProductName(), ptail);
  }
}

/** The pure part of `identify_ports`: find `VID:PID=hhhh:hhhh` in each
    port's hardware id, map (vendor, product) to the port's device name, and
    pick out the GPS receiver and the NexStar hand controller.

    The enumeration of serial ports is replaced by its sorted result, given
    as a sequence. */
module PortIdentification {
  import opened Results

  /** One entry of the port listing: device name, description, hardware id. */
  datatype PortInfo = PortInfo(device: string, description: string, hwid: string)

  /** The two captured groups, with the case they had in the hardware id. */
  datatype UsbId = UsbId(vendor: string, product: string)

  /** The devices found for the two instruments. */
  datatype PortIds = PortIds(gps: string, telescope: string)

  datatype PortError = GpsNotFound | NexstarNotFound

  const GpsId: UsbId := UsbId("1546", "01A7")
  const NexstarId: UsbId := UsbId("067B", "23D3")

  /** The literal part of the pattern, matched ignoring case. */
  const Prefix: string := "VID:PID="

  predicate IsHexDigit(c: char) {
    ('0' <= c <= '9') || ('A' <= c <= 'F') || ('a' <= c <= 'f')
  }

  /** A character of `\w`: letter, digit or underscore. */
  predicate IsWordChar(c: char) {
    ('0' <= c <= '9') || ('A' <= c <= 'Z') || ('a' <= c <= 'z') || c == '_'
  }

  function Lower(c: char): char {
    if 'A' <= c <= 'Z' then (c as int + 32) as char else c
  }

  predicate SameIgnoringCase(c: char, d: char) {
    Lower(c) == Lower(d)
  }

  predicate AllHex(t: seq<char>) {
    forall c :: c in t ==> IsHexDigit(c)
  }

  predicate EqualIgnoringCase(t: seq<char>, u: seq<char>) {
    |t| == |u| && forall j :: 0 <= j < |t| ==> SameIgnoringCase(t[j], u[j])
  }

  /** The definition of the pattern: a match of
      `VID:PID=([0-9A-F]{4}):([0-9A-F]{4})\b`, ignoring case, starting at
      position `k`. It spans 17 characters: the 8-character prefix in any
      case, four hex digits, a colon and four hex digits; the word boundary
      after them is the end of the text or a character outside `\w`. */
  predicate MatchAt(s: seq<char>, k: nat) {
    && k + 17 <= |s|
    && EqualIgnoringCase(s[k..k + 8], Prefix)
    && AllHex(s[k + 8..k + 12])
    && s[k + 12] == ':'
    && AllHex(s[k + 13..k + 17])
    && (k + 17 == |s| || !IsWordChar(s[k + 17]))
  }

  /** The two groups of a match at `k`. */
  function Groups(s: seq<char>, k: nat): UsbId
    requires MatchAt(s, k)
  {
    UsbId(s[k + 8..k + 12], s[k + 13..k + 17])
  }

  /** The leftmost position at or after `k` where the pattern matches. */
  function SearchFrom(s: seq<char>, k: nat): (r: Option<nat>)
    ensures r.Some? ==> k <= r.value && MatchAt(s, r.value)
    ensures r.Some? ==> forall q :: k <= q < r.value ==> !MatchAt(s, q)
    ensures r.None? ==> forall q :: k <= q ==> !MatchAt(s, q)
    decreases |s| - k
  {
    if |s| < k + 17 then None
    else if MatchAt(s, k) then Some(k)
    else SearchFrom(s, k + 1)
  }

  /** `re.search` for `VID:PID=([0-9A-F]{4}):([0-9A-F]{4})\b` ignoring case:
      the groups of the leftmost match, if there is one. */
  function FindUsbId(hwid: string): (r: Option<UsbId>)
    ensures r.None? <==> forall q :: !MatchAt(hwid, q)
    ensures r.Some? ==> exists k :: MatchAt(hwid, k) && r.value == Groups(hwid, k)
                                      && forall q :: q < k ==> !MatchAt(hwid, q)
  {
    match SearchFrom(hwid, 0)
    case Some(k) => Some(Groups(hwid, k))
    case None => None
  }

  /** An entry of the listing after its hardware id has been searched. */
  datatype Parsed = Parsed(id: Option<UsbId>, device: string)

  /** Every entry of the listing, in order, with its hardware id searched. */
  function ParseAll(ps: seq<PortInfo>): seq<Parsed> {
    seq(|ps|, i requires 0 <= i < |ps| => Parsed(FindUsbId(ps[i].hwid), ps[i].device))
  }

  /** One of the first n entries yields `id`. */
  ghost predicate Listed(es: seq<Parsed>, n: nat, id: UsbId)
    requires n <= |es|
  {
    exists i :: 0 <= i < n && es[i].id == Some(id)
  }

  /** Entry `i` is the last of the first n entries that yields `id`. */
  ghost predicate LastWithId(es: seq<Parsed>, n: nat, id: UsbId, i: int)
    requires n <= |es|
  {
    0 <= i < n && es[i].id == Some(id)
    && forall j :: i < j < n ==> es[j].id != Some(id)
  }

  /** `ports_by_id` after the first n entries: entries without a match are
      skipped, and a later entry overwrites an earlier one with the same
      (vendor, product). */
  function PortMap(es: seq<Parsed>, n: nat): (m: map<UsbId, string>)
    requires n <= |es|
    ensures forall id :: id in m <==> Listed(es, n, id)
    ensures forall id, i :: LastWithId(es, n, id, i) ==> id in m && m[id] == es[i].device
  {
    if n == 0 then map[]
    else
      var m := PortMap(es, n - 1);
      match es[n - 1].id
      case None => m
      case Some(id) => m[id := es[n - 1].device]
  }

  /** An id that some entry yields has a last entry yielding it. */
  lemma {:induction false} LastWithIdExists(es: seq<Parsed>, n: nat, id: UsbId)
    requires n <= |es| && Listed(es, n, id)
    ensures exists i :: LastWithId(es, n, id, i)
  {
    if es[n - 1].id == Some(id) {
      assert LastWithId(es, n, id, n - 1);
    } else {
      assert Listed(es, n - 1, id);
      LastWithIdExists(es, n - 1, id);
      var i :| LastWithId(es, n - 1, id, i);
      assert LastWithId(es, n, id, i);
    }
  }

  /** `identify_ports`: the GPS is looked for first, then the NexStar; each
      found id names the device of the last entry that carries it. */
  function IdentifyPorts(ps: seq<PortInfo>): (r: Result<PortIds, PortError>)
    ensures var es := ParseAll(ps);
      && (r == Failure(GpsNotFound) <==> !Listed(es, |es|, GpsId))
      && (r == Failure(NexstarNotFound) <==> Listed(es, |es|, GpsId) && !Listed(es, |es|, NexstarId))
      && (r.Success? ==>
            && (exists i :: LastWithId(es, |es|, GpsId, i) && r.value.gps == ps[i].device)
            && (exists i :: LastWithId(es, |es|, NexstarId, i) && r.value.telescope == ps[i].device))
  {
    var es := ParseAll(ps);
    var m := PortMap(es, |es|);
    if GpsId !in m then Failure(GpsNotFound)
    else if NexstarId !in m then Failure(NexstarNotFound)
    else
      LastWithIdExists(es, |es|, GpsId);
      LastWithIdExists(es, |es|, NexstarId);
      Success(PortIds(m[GpsId], m[NexstarId]))
  }

  // ---------------------------------------------------------------------------
  // The pattern on concrete hardware ids.

  /** No match can start at a character that is not a `v` in either case. */
  lemma NoMatchWithoutV(s: string, q: nat)
    requires q < |s| && Lower(s[q]) != 'v'
    ensures !MatchAt(s, q)
  {
    if q + 17 <= |s| {
      assert s[q..q + 8][0] == s[q];
    }
  }

  /** A hardware id of the shape the pattern describes, with no `v` before
      the literal, yields the two hex runs as written. */
  lemma {:induction false} FindsComposed(pre: string, lit: string, v: string, p: string, post: string)
    requires forall c :: c in pre ==> Lower(c) != 'v'
    requires EqualIgnoringCase(lit, Prefix)
    requires |v| == 4 && AllHex(v) && |p| == 4 && AllHex(p)
    requires post == [] || !IsWordChar(post[0])
    ensures FindUsbId(pre + lit + v + ":" + p + post) == Some(UsbId(v, p))
  {
    var s := pre + lit + v + ":" + p + post;
    var k := |pre|;
    assert s[k..k + 8] == lit;
    assert s[k + 8..k + 12] == v;
    assert s[k + 12] == ':';
    assert s[k + 13..k + 17] == p;
    if post != [] {
      assert s[k + 17] == post[0];
    }
    assert MatchAt(s, k);
    forall q: nat | q < k ensures !MatchAt(s, q) {
      assert s[q] == pre[q];
      NoMatchWithoutV(s, q);
    }
  }

  /** The literal part matches in any case; the groups keep their case. */
  lemma LowerCasePrefixMatches()
    ensures FindUsbId("USB vid:pid=1546:01a7 SER=7") == Some(UsbId("1546", "01a7"))
  {
    assert "USB " + "vid:pid=" + "1546" + ":" + "01a7" + " SER=7" == "USB vid:pid=1546:01a7 SER=7";
    FindsComposed("USB ", "vid:pid=", "1546", "01a7", " SER=7");
  }

  /** A fifth hex digit leaves no word boundary, so there is no match. */
  lemma NoBoundaryNoMatch()
    ensures FindUsbId("USB VID:PID=1546:01A7F") == None
  {
    var h := "USB VID:PID=1546:01A7F";
    assert forall q :: !MatchAt(h, q);
  }

  /** The captured product keeps its lower case and so differs from the GPS
      product id. */
  lemma LowerCaseGpsHwid()
    ensures FindUsbId("USB VID:PID=1546:01a7") == Some(UsbId("1546", "01a7"))
    ensures UsbId("1546", "01a7") != GpsId
  {
    assert "USB " + "VID:PID=" + "1546" + ":" + "01a7" + "" == "USB VID:PID=1546:01a7";
    FindsComposed("USB ", "VID:PID=", "1546", "01a7", "");
    assert "01a7"[2] != GpsId.product[2];
  }

  lemma NexstarHwid()
    ensures FindUsbId("USB VID:PID=067B:23D3") == Some(NexstarId)
    ensures NexstarId != GpsId
  {
    assert "USB " + "VID:PID=" + "067B" + ":" + "23D3" + "" == "USB VID:PID=067B:23D3";
    FindsComposed("USB ", "VID:PID=", "067B", "23D3", "");
    assert NexstarId.vendor[1] != GpsId.vendor[1];
  }

  /** A listing in which no hardware id yields the GPS id fails with
      `GpsNotFound`, whatever else it holds. */
  lemma NoGpsIdFails(ps: seq<PortInfo>)
    requires forall i :: 0 <= i < |ps| ==> FindUsbId(ps[i].hwid) != Some(GpsId)
    ensures IdentifyPorts(ps) == Failure(GpsNotFound)
  {
  }

  /** A GPS receiver whose hardware id spells its product in lower case is
      not found, even though a NexStar is listed. */
  lemma LowerCaseGpsIsNotFound(gpsDevice: string, nexstarDevice: string)
    ensures IdentifyPorts([
      PortInfo(gpsDevice, "u-blox GNSS receiver", "USB VID:PID=1546:01a7"),
      PortInfo(nexstarDevice, "USB-Serial Controller", "USB VID:PID=067B:23D3")
    ]) == Failure(GpsNotFound)
  {
    var ps := [
      PortInfo(gpsDevice, "u-blox GNSS receiver", "USB VID:PID=1546:01a7"),
      PortInfo(nexstarDevice, "USB-Serial Controller", "USB VID:PID=067B:23D3")
    ];
    LowerCaseGpsHwid();
    NexstarHwid();
    forall i | 0 <= i < |ps| ensures FindUsbId(ps[i].hwid) != Some(GpsId) {
      if i == 0 {
        assert ps[i].hwid == "USB VID:PID=1546:01a7";
      } else {
        assert ps[i].hwid == "USB VID:PID=067B:23D3";
      }
    }
    NoGpsIdFails(ps);
  }
}

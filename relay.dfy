/**
 * The relay server between the phones and the e-paper devices: a registry of
 * device addresses, a first-in first-out queue of display content per device,
 * the time of each device's last poll, an online/offline status and the time
 * of the last heartbeat, plus the address of the current default device.
 *
 * `Registry` is a value holding that state, and each handler is a function
 * from the old `Registry` (and the request) to an `Outcome`: the new
 * `Registry` and the response. Those functions carry the handlers' promises
 * and the lemmas below relate them. The class `Server` holds the same state in
 * mutable fields, as the server keeps it in module-level variables, and each
 * of its methods updates the fields step by step and is proved to end in the
 * state the matching function describes.
 *
 * A field that is missing from a request body is the empty string here,
 * exactly the values the handlers treat as falsy. The clock (`Date.now()`) is
 * the parameter `now`, and the image pipeline is the parameter `render`.
 */
module Relay {
  import opened Wrappers
  import opened Address
  import opened TextWrap
  import opened Strings

  /** Longest accepted text, in characters. */
  const MaxTextLength: nat := 1000
  /** A device that has not polled for this many milliseconds is offline. */
  const DeviceTimeout: int := 10 * 60 * 1000
  /** Line width for medium text, the default. */
  const MaxCharsPerLine: nat := 45
  const AllowedImageTypes: seq<string> := ["image/jpeg", "image/png"]
  /** The only UDP payload the server reacts to. */
  const OnlineAnnouncement: string := "epd-online"

  /** A device's status; `Unknown` is what the listing reports for a device with no stored status. */
  datatype Status = Online | Offline | Unknown

  /** One entry of a device's content queue. */
  datatype Item =
    | Text(data: string, textSize: string)
    | ProcessedImage(data: string)
    | Clear

  datatype Error =
    | IpRequired
    | InvalidIpFormat
    | DeviceNotRegistered
    | TextRequired
    | TextTooLong
    | NoDeviceIp
    | ImageRequired
    | InvalidImageType
    | ProcessingFailed

  /** One entry of the `/devices` listing; `lastSeen` is `None` where the server reports "Never". */
  datatype DeviceInfo = DeviceInfo(ip: string, active: bool, lastFetch: int, status: Status, lastSeen: Option<int>)

  datatype Response =
    | Success
    | Failure(code: int, error: Error)
    | Deliver(item: Item)
    | NoContent
    | Queue(items: seq<Item>)
    | Devices(devices: seq<DeviceInfo>)

  /** The uploaded file as the upload middleware describes it. */
  datatype Upload = Upload(path: string, mimetype: string)

  datatype Registry = Registry(
    espDeviceIP: string,
    registeredDevices: seq<string>,
    contentQueue: map<string, seq<Item>>,
    lastFetchTimestamps: map<string, int>,
    deviceStatus: map<string, Status>,
    deviceLastSeen: map<string, int>)

  datatype Outcome = Outcome(next: Registry, response: Response)

  predicate NoDuplicates(devices: seq<string>)
  {
    forall i, j | 0 <= i < j < |devices| :: devices[i] != devices[j]
  }

  /**
   * What every handler keeps: each address is registered once, registered
   * devices are exactly those with a queue and a poll time, a status or a
   * heartbeat exists only for a registered device, no stored status is
   * `Unknown`, and the default device is unset or registered.
   */
  ghost predicate Valid(s: Registry)
  {
    NoDuplicates(s.registeredDevices)
    && (forall ip :: ip in s.contentQueue <==> ip in s.registeredDevices)
    && (forall ip :: ip in s.lastFetchTimestamps <==> ip in s.registeredDevices)
    && (forall ip | ip in s.deviceStatus :: ip in s.registeredDevices && s.deviceStatus[ip] != Unknown)
    && (forall ip | ip in s.deviceLastSeen :: ip in s.registeredDevices)
    && (s.espDeviceIP == "" || s.espDeviceIP in s.registeredDevices)
  }

  /** The state the server starts in. */
  function Initial(): (s: Registry)
    ensures Valid(s)
    ensures |s.registeredDevices| == 0 && s.espDeviceIP == ""
  {
    Registry("", [], map[], map[], map[], map[])
  }

  /** `lastFetchTimestamps[ip] || 0`. */
  function LastFetch(s: Registry, ip: string): int
  {
    if ip in s.lastFetchTimestamps then s.lastFetchTimestamps[ip] else 0
  }

  /** `contentQueue[ip] || []`. */
  function QueueOf(s: Registry, ip: string): seq<Item>
  {
    if ip in s.contentQueue then s.contentQueue[ip] else []
  }

  /** `deviceStatus[ip] || 'unknown'`. */
  function StatusOf(s: Registry, ip: string): Status
  {
    if ip in s.deviceStatus then s.deviceStatus[ip] else Unknown
  }

  /** `deviceIp || espDeviceIP`: the device named in the request, else the default one. */
  function Target(s: Registry, deviceIp: string): (t: string)
    ensures deviceIp != "" ==> t == deviceIp
    ensures deviceIp == "" ==> t == s.espDeviceIP
  {
    if deviceIp != "" then deviceIp else s.espDeviceIP
  }

  /** Adds an address the server has not seen, with an empty queue and the given poll time. */
  function AddDevice(s: Registry, ip: string, lastFetch: int): (t: Registry)
    ensures ip in t.registeredDevices && QueueOf(t, ip) == [] && LastFetch(t, ip) == lastFetch
    ensures forall other | other != ip :: QueueOf(t, other) == QueueOf(s, other) && LastFetch(t, other) == LastFetch(s, other)
    ensures t.registeredDevices == s.registeredDevices + [ip]
    ensures t.espDeviceIP == s.espDeviceIP && t.deviceStatus == s.deviceStatus && t.deviceLastSeen == s.deviceLastSeen
  {
    s.(registeredDevices := s.registeredDevices + [ip],
       contentQueue := s.contentQueue[ip := []],
       lastFetchTimestamps := s.lastFetchTimestamps[ip := lastFetch])
  }

  /** Appends one item at the tail of a device's queue, creating the queue if it is missing. */
  function Enqueue(s: Registry, ip: string, item: Item): (t: Registry)
    ensures QueueOf(t, ip) == QueueOf(s, ip) + [item]
    ensures forall other | other != ip :: QueueOf(t, other) == QueueOf(s, other)
    ensures t.registeredDevices == s.registeredDevices && t.espDeviceIP == s.espDeviceIP
    ensures t.lastFetchTimestamps == s.lastFetchTimestamps && t.deviceStatus == s.deviceStatus
    ensures t.deviceLastSeen == s.deviceLastSeen
  {
    s.(contentQueue := s.contentQueue[ip := QueueOf(s, ip) + [item]])
  }

  lemma AddDeviceValid(s: Registry, ip: string, lastFetch: int)
    requires Valid(s) && ip !in s.registeredDevices
    ensures Valid(AddDevice(s, ip, lastFetch))
  {
    var t := AddDevice(s, ip, lastFetch);
    forall i, j | 0 <= i < j < |t.registeredDevices|
      ensures t.registeredDevices[i] != t.registeredDevices[j]
    {
      if j == |s.registeredDevices| {
        assert t.registeredDevices[i] == s.registeredDevices[i];
      }
    }
  }

  lemma EnqueueValid(s: Registry, ip: string, item: Item)
    requires Valid(s) && ip in s.registeredDevices
    ensures Valid(Enqueue(s, ip, item))
  {
  }

  // ---------------------------------------------------------------- /register-device

  /**
   * POST /register-device: a missing address, then a malformed one, is
   * rejected and nothing changes. Otherwise a new address is added with an
   * empty queue, and new or not, the device is online and its poll time is
   * `now`; an address already registered keeps its queue.
   */
  function RegisterStep(s: Registry, ip: string, now: int): (o: Outcome)
    ensures ip == "" ==> o == Outcome(s, Failure(400, IpRequired))
    ensures ip != "" && !IsValidIPAddress(ip) ==> o == Outcome(s, Failure(400, InvalidIpFormat))
    ensures o.response == Success <==> ip != "" && IsValidIPAddress(ip)
    ensures o.response == Success ==>
      && ip in o.next.registeredDevices
      && o.next.lastFetchTimestamps == s.lastFetchTimestamps[ip := now]
      && o.next.deviceStatus == s.deviceStatus[ip := Online]
      && o.next.deviceLastSeen == s.deviceLastSeen
      && o.next.espDeviceIP == s.espDeviceIP
      && (ip in s.registeredDevices ==>
            o.next.registeredDevices == s.registeredDevices && o.next.contentQueue == s.contentQueue)
      && (ip !in s.registeredDevices ==>
            o.next.registeredDevices == s.registeredDevices + [ip] && o.next.contentQueue == s.contentQueue[ip := []])
  {
    if ip == "" then Outcome(s, Failure(400, IpRequired))
    else if !IsValidIPAddress(ip) then Outcome(s, Failure(400, InvalidIpFormat))
    else
      var added := if ip !in s.registeredDevices then AddDevice(s, ip, now) else s;
      Outcome(added.(lastFetchTimestamps := added.lastFetchTimestamps[ip := now],
                     deviceStatus := added.deviceStatus[ip := Online]), Success)
  }

  lemma RegisterKeepsValid(s: Registry, ip: string, now: int)
    requires Valid(s)
    ensures Valid(RegisterStep(s, ip, now).next)
  {
    if ip != "" && IsValidIPAddress(ip) {
      var added := if ip !in s.registeredDevices then AddDevice(s, ip, now) else s;
      if ip !in s.registeredDevices {
        AddDeviceValid(s, ip, now);
      }
      StampValid(added, ip, now);
    }
  }

  /** Stamping a registered device online at `now` keeps the invariant. */
  lemma StampValid(s: Registry, ip: string, now: int)
    requires Valid(s) && ip in s.registeredDevices
    ensures Valid(s.(lastFetchTimestamps := s.lastFetchTimestamps[ip := now], deviceStatus := s.deviceStatus[ip := Online]))
  {
  }

  // ---------------------------------------------------------------- /set-device

  /**
   * POST /set-device: the same two checks as registration; then the address
   * becomes the default device and, when it is new, is registered with an
   * empty queue and poll time 0. Its status is not touched.
   */
  function SetDeviceStep(s: Registry, ip: string): (o: Outcome)
    ensures ip == "" ==> o == Outcome(s, Failure(400, IpRequired))
    ensures ip != "" && !IsValidIPAddress(ip) ==> o == Outcome(s, Failure(400, InvalidIpFormat))
    ensures o.response == Success <==> ip != "" && IsValidIPAddress(ip)
    ensures o.response == Success ==>
      && o.next.espDeviceIP == ip
      && o.next.deviceStatus == s.deviceStatus
      && o.next.deviceLastSeen == s.deviceLastSeen
      && (ip in s.registeredDevices ==> o.next == s.(espDeviceIP := ip))
      && (ip !in s.registeredDevices ==>
            && o.next.registeredDevices == s.registeredDevices + [ip]
            && o.next.contentQueue == s.contentQueue[ip := []]
            && o.next.lastFetchTimestamps == s.lastFetchTimestamps[ip := 0])
  {
    if ip == "" then Outcome(s, Failure(400, IpRequired))
    else if !IsValidIPAddress(ip) then Outcome(s, Failure(400, InvalidIpFormat))
    else
      var targeted := s.(espDeviceIP := ip);
      if ip !in s.registeredDevices then Outcome(AddDevice(targeted, ip, 0), Success)
      else Outcome(targeted, Success)
  }

  lemma SetDeviceKeepsValid(s: Registry, ip: string)
    requires Valid(s)
    ensures Valid(SetDeviceStep(s, ip).next)
  {
    if ip != "" && IsValidIPAddress(ip) && ip !in s.registeredDevices {
      AddDeviceValid(s, ip, 0);
      assert SetDeviceStep(s, ip).next == AddDevice(s, ip, 0).(espDeviceIP := ip);
    }
  }

  // ---------------------------------------------------------------- /poll-content

  /**
   * POST /poll-content: an unregistered (or missing) address is rejected and
   * nothing changes. A registered device is stamped online at `now`; then the
   * head of its queue is removed and delivered, or `NoContent` is returned for
   * an empty queue.
   */
  function PollStep(s: Registry, ip: string, now: int): (o: Outcome)
    ensures ip == "" || ip !in s.registeredDevices <==> o == Outcome(s, Failure(400, DeviceNotRegistered))
    ensures ip != "" && ip in s.registeredDevices ==>
      && o.next.registeredDevices == s.registeredDevices
      && o.next.espDeviceIP == s.espDeviceIP
      && o.next.lastFetchTimestamps == s.lastFetchTimestamps[ip := now]
      && o.next.deviceStatus == s.deviceStatus[ip := Online]
      && o.next.deviceLastSeen == s.deviceLastSeen
      && (|QueueOf(s, ip)| == 0 ==> o.response == NoContent && o.next.contentQueue == s.contentQueue)
      && (|QueueOf(s, ip)| > 0 ==>
            o.response == Deliver(QueueOf(s, ip)[0]) &&
            o.next.contentQueue == s.contentQueue[ip := QueueOf(s, ip)[1..]])
  {
    if ip == "" || ip !in s.registeredDevices then Outcome(s, Failure(400, DeviceNotRegistered))
    else
      var stamped := s.(lastFetchTimestamps := s.lastFetchTimestamps[ip := now],
                        deviceStatus := s.deviceStatus[ip := Online]);
      var queue := QueueOf(s, ip);
      if |queue| > 0 then
        Outcome(stamped.(contentQueue := s.contentQueue[ip := queue[1..]]), Deliver(queue[0]))
      else
        Outcome(stamped, NoContent)
  }

  lemma PollKeepsValid(s: Registry, ip: string, now: int)
    requires Valid(s)
    ensures Valid(PollStep(s, ip, now).next)
  {
  }

  // ---------------------------------------------------------------- timeouts

  /** A device whose last poll (0 when it never polled) is more than `DeviceTimeout` before `now`. */
  predicate TimedOut(lastFetchTimestamps: map<string, int>, ip: string, now: int)
  {
    now - (if ip in lastFetchTimestamps then lastFetchTimestamps[ip] else 0) > DeviceTimeout
  }

  /** The `forEach` over the devices: each timed-out one is marked offline, in order. */
  function SweepStatus(devices: seq<string>, lastFetchTimestamps: map<string, int>, status: map<string, Status>, now: int): (swept: map<string, Status>)
    ensures status.Keys <= swept.Keys
    ensures forall ip | ip in swept :: swept[ip] == Offline || (ip in status && swept[ip] == status[ip])
    ensures forall ip | ip in swept && ip !in status :: ip in devices
    decreases |devices|
  {
    if |devices| == 0 then status
    else
      var swept := SweepStatus(devices[..|devices| - 1], lastFetchTimestamps, status, now);
      var ip := devices[|devices| - 1];
      if TimedOut(lastFetchTimestamps, ip, now) then swept[ip := Offline] else swept
  }

  /** One more device in the sweep: it is marked offline when it timed out. */
  lemma SweepStatusSnoc(devices: seq<string>, i: nat, lastFetchTimestamps: map<string, int>, status: map<string, Status>, now: int)
    requires i < |devices|
    ensures SweepStatus(devices[..i + 1], lastFetchTimestamps, status, now) ==
      var swept := SweepStatus(devices[..i], lastFetchTimestamps, status, now);
      if TimedOut(lastFetchTimestamps, devices[i], now) then swept[devices[i] := Offline] else swept
  {
    assert devices[..i + 1][..i] == devices[..i];
  }

  /**
   * The sweep marks offline exactly the listed devices that timed out and
   * leaves every other status as it was.
   */
  lemma {:induction false} SweptExactly(devices: seq<string>, lastFetchTimestamps: map<string, int>, status: map<string, Status>, now: int, ip: string)
    ensures ip in SweepStatus(devices, lastFetchTimestamps, status, now) <==>
      ip in status || (ip in devices && TimedOut(lastFetchTimestamps, ip, now))
    ensures ip in devices && TimedOut(lastFetchTimestamps, ip, now) ==>
      SweepStatus(devices, lastFetchTimestamps, status, now)[ip] == Offline
    ensures !(ip in devices && TimedOut(lastFetchTimestamps, ip, now)) && ip in status ==>
      SweepStatus(devices, lastFetchTimestamps, status, now)[ip] == status[ip]
    decreases |devices|
  {
    if |devices| > 0 {
      var init := devices[..|devices| - 1];
      SweptExactly(init, lastFetchTimestamps, status, now, ip);
      assert devices == init + [devices[|devices| - 1]];
    }
  }

  /**
   * The sweep run by GET /devices and by the one-minute timer: it changes only
   * statuses, and afterwards a device reads as offline exactly when it is
   * registered and timed out, and otherwise as before.
   */
  function SweepStep(s: Registry, now: int): (t: Registry)
    ensures t == s.(deviceStatus := t.deviceStatus)
    ensures forall ip ::
      StatusOf(t, ip) == (if ip in s.registeredDevices && now - LastFetch(s, ip) > DeviceTimeout then Offline else StatusOf(s, ip))
  {
    var t := s.(deviceStatus := SweepStatus(s.registeredDevices, s.lastFetchTimestamps, s.deviceStatus, now));
    forall ip
      ensures StatusOf(t, ip) ==
        (if ip in s.registeredDevices && now - LastFetch(s, ip) > DeviceTimeout then Offline else StatusOf(s, ip))
    {
      SweptExactly(s.registeredDevices, s.lastFetchTimestamps, s.deviceStatus, now, ip);
    }
    t
  }

  lemma SweepKeepsValid(s: Registry, now: int)
    requires Valid(s)
    ensures Valid(SweepStep(s, now))
  {
    var t := SweepStep(s, now);
    forall ip | ip in t.deviceStatus
      ensures ip in t.registeredDevices && t.deviceStatus[ip] != Unknown
    {
      SweptExactly(s.registeredDevices, s.lastFetchTimestamps, s.deviceStatus, now, ip);
    }
  }

  /** The sweep never sets a device online: a device online after it was online before and had not timed out. */
  lemma SweepNeverSetsOnline(s: Registry, now: int, ip: string)
    requires StatusOf(SweepStep(s, now), ip) == Online
    ensures StatusOf(s, ip) == Online
    ensures !(ip in s.registeredDevices && now - LastFetch(s, ip) > DeviceTimeout)
  {
  }

  /**
   * A device added by /set-device (poll time 0) has no status, and goes
   * offline at the first sweep once the clock is past the timeout, although
   * it was never online.
   */
  lemma NeverPolledDeviceTimesOut(s: Registry, ip: string, now: int)
    requires Valid(s) && IsValidIPAddress(ip) && ip !in s.registeredDevices
    requires now > DeviceTimeout
    ensures StatusOf(SetDeviceStep(s, ip).next, ip) == Unknown
    ensures StatusOf(SweepStep(SetDeviceStep(s, ip).next, now), ip) == Offline
  {
    ValidAddressNonEmpty(ip);
    var t := SetDeviceStep(s, ip).next;
    assert ip in t.registeredDevices && LastFetch(t, ip) == 0;
    assert ip !in s.deviceStatus;
  }

  // ---------------------------------------------------------------- GET /devices

  /** The listing entry of one device; "Never" (`None`) stands for a poll time of 0 or none at all. */
  function DeviceEntry(s: Registry, ip: string): (entry: DeviceInfo)
    ensures entry.ip == ip && entry.lastFetch == LastFetch(s, ip) && entry.status == StatusOf(s, ip)
    ensures entry.active <==> ip == s.espDeviceIP
    ensures entry.lastSeen.Some? ==> entry.lastSeen.value == entry.lastFetch && entry.lastFetch != 0
    ensures entry.lastSeen.None? <==> ip !in s.lastFetchTimestamps || s.lastFetchTimestamps[ip] == 0
  {
    var lastFetch := LastFetch(s, ip);
    DeviceInfo(ip, ip == s.espDeviceIP, lastFetch, StatusOf(s, ip), if lastFetch != 0 then Some(lastFetch) else None)
  }

  /** The listing, one entry per registered device in registration order. */
  function DeviceList(s: Registry): (list: seq<DeviceInfo>)
    ensures |list| == |s.registeredDevices|
    ensures forall n | 0 <= n < |list| :: list[n] == DeviceEntry(s, s.registeredDevices[n])
    decreases |s.registeredDevices|
  {
    if |s.registeredDevices| == 0 then []
    else
      var last := s.registeredDevices[|s.registeredDevices| - 1];
      DeviceList(s.(registeredDevices := s.registeredDevices[..|s.registeredDevices| - 1])) + [DeviceEntry(s, last)]
  }

  /**
   * Entry `n` describes the `n`-th registered device: active exactly when it
   * is the default device, `Unknown` exactly when no status is stored for it,
   * "Never" seen exactly when its poll time is 0 or missing.
   */
  lemma DeviceEntryFields(s: Registry, n: int)
    requires Valid(s)
    requires 0 <= n < |s.registeredDevices|
    ensures DeviceList(s)[n].ip == s.registeredDevices[n]
    ensures DeviceList(s)[n].active <==> s.registeredDevices[n] == s.espDeviceIP
    ensures DeviceList(s)[n].status == Unknown <==> s.registeredDevices[n] !in s.deviceStatus
    ensures DeviceList(s)[n].lastSeen == None <==> LastFetch(s, s.registeredDevices[n]) == 0
  {
  }

  /** With no address registered twice, at most one entry of the listing is active. */
  lemma AtMostOneActive(s: Registry, m: int, n: int)
    requires Valid(s)
    requires 0 <= m < n < |s.registeredDevices|
    ensures !(DeviceList(s)[m].active && DeviceList(s)[n].active)
  {
    DeviceEntryFields(s, m);
    DeviceEntryFields(s, n);
  }

  /**
   * Some entry is active exactly when the default device is registered; under
   * `Valid`, and with the empty address unregistered, that is exactly when a
   * default device is set.
   */
  lemma SomeActiveIffDefaultRegistered(s: Registry)
    ensures (exists n | 0 <= n < |s.registeredDevices| :: DeviceList(s)[n].active) <==> s.espDeviceIP in s.registeredDevices
    ensures Valid(s) && "" !in s.registeredDevices ==>
      ((exists n | 0 <= n < |s.registeredDevices| :: DeviceList(s)[n].active) <==> s.espDeviceIP != "")
  {
    var list := DeviceList(s);
    if s.espDeviceIP in s.registeredDevices {
      var n :| 0 <= n < |s.registeredDevices| && s.registeredDevices[n] == s.espDeviceIP;
      assert list[n] == DeviceEntry(s, s.registeredDevices[n]);
      assert list[n].active;
    }
  }

  /** GET /devices: the sweep, then the listing of the swept state. */
  function ListDevicesStep(s: Registry, now: int): (o: Outcome)
    ensures o.next == SweepStep(s, now)
    ensures o.response == Devices(DeviceList(SweepStep(s, now)))
    ensures |o.response.devices| == |s.registeredDevices|
  {
    var swept := SweepStep(s, now);
    Outcome(swept, Devices(DeviceList(swept)))
  }

  /**
   * Entry `n` of the listing is the `n`-th registered device; it is reported
   * offline when that device timed out by `now`, and otherwise with the status
   * it had before the request.
   */
  lemma ListingReportsTimeouts(s: Registry, now: int, n: int)
    requires 0 <= n < |s.registeredDevices|
    ensures var entry := ListDevicesStep(s, now).response.devices[n];
      && entry.ip == s.registeredDevices[n]
      && (now - LastFetch(s, entry.ip) > DeviceTimeout ==> entry.status == Offline)
      && (now - LastFetch(s, entry.ip) <= DeviceTimeout ==> entry.status == StatusOf(s, entry.ip))
  {
    var swept := SweepStep(s, now);
    assert DeviceList(swept)[n] == DeviceEntry(swept, swept.registeredDevices[n]);
  }

  // ---------------------------------------------------------------- /send-text

  /** Line width for a text size: `small` 55, `large` 35, anything else 45. */
  function LineWidth(textSize: string): (width: nat)
    ensures width == 55 <==> textSize == "small"
    ensures width == 35 <==> textSize == "large"
    ensures width == MaxCharsPerLine <==> textSize != "small" && textSize != "large"
  {
    if textSize == "small" then 55
    else if textSize == "large" then 35
    else MaxCharsPerLine
  }

  /** The queued text size: `textSize || 'medium'`. */
  function StoredTextSize(textSize: string): (size: string)
    ensures size != ""
    ensures textSize == "" ==> size == "medium"
    ensures textSize != "" ==> size == textSize
  {
    if textSize == "" then "medium" else textSize
  }

  /** The size stored with a queued text selects the width the text was wrapped to. */
  lemma StoredSizeKeepsWidth(textSize: string)
    ensures LineWidth(StoredTextSize(textSize)) == LineWidth(textSize)
  {
  }

  /**
   * POST /send-text: checks in order text present, text at most
   * `MaxTextLength`, a target (the request's device or the default one),
   * a well-formed target; then the text is wrapped to the width of its size
   * and queued for a registered target, or refused with 404 for an
   * unregistered one.
   */
  function SendTextStep(s: Registry, text: string, deviceIp: string, textSize: string): (o: Outcome)
    ensures o.response != Success ==> o.next == s
    ensures text == "" ==> o.response == Failure(400, TextRequired)
    ensures text != "" && |text| > MaxTextLength ==> o.response == Failure(400, TextTooLong)
    ensures text != "" && |text| <= MaxTextLength && Target(s, deviceIp) == "" ==> o.response == Failure(400, NoDeviceIp)
    ensures text != "" && |text| <= MaxTextLength && Target(s, deviceIp) != "" && !IsValidIPAddress(Target(s, deviceIp)) ==>
      o.response == Failure(400, InvalidIpFormat)
    ensures text != "" && |text| <= MaxTextLength && IsValidIPAddress(Target(s, deviceIp)) && Target(s, deviceIp) !in s.registeredDevices ==>
      o.response == Failure(404, DeviceNotRegistered)
    ensures o.response == Success <==>
      text != "" && |text| <= MaxTextLength && IsValidIPAddress(Target(s, deviceIp)) && Target(s, deviceIp) in s.registeredDevices
    ensures o.response == Success ==>
      o.next == Enqueue(s, Target(s, deviceIp), Text(Wrapped(text, LineWidth(textSize)), StoredTextSize(textSize)))
  {
    var target := Target(s, deviceIp);
    if text == "" then Outcome(s, Failure(400, TextRequired))
    else if |text| > MaxTextLength then Outcome(s, Failure(400, TextTooLong))
    else if target == "" then Outcome(s, Failure(400, NoDeviceIp))
    else if !IsValidIPAddress(target) then Outcome(s, Failure(400, InvalidIpFormat))
    else if target in s.registeredDevices then
      Outcome(Enqueue(s, target, Text(Wrapped(text, LineWidth(textSize)), StoredTextSize(textSize))), Success)
    else
      Outcome(s, Failure(404, DeviceNotRegistered))
  }

  lemma SendTextKeepsValid(s: Registry, text: string, deviceIp: string, textSize: string)
    requires Valid(s)
    ensures Valid(SendTextStep(s, text, deviceIp, textSize).next)
  {
    var o := SendTextStep(s, text, deviceIp, textSize);
    if o.response == Success {
      EnqueueValid(s, Target(s, deviceIp), Text(Wrapped(text, LineWidth(textSize)), StoredTextSize(textSize)));
    }
  }

  /**
   * After a successful send the target's queue ends with a text item none of
   * whose lines is longer than the width its own stored size selects.
   */
  lemma QueuedTextFitsItsSize(s: Registry, text: string, deviceIp: string, textSize: string)
    requires SendTextStep(s, text, deviceIp, textSize).response == Success
    ensures var queue := QueueOf(SendTextStep(s, text, deviceIp, textSize).next, Target(s, deviceIp));
      && |queue| >= 1 && queue[|queue| - 1].Text?
      && forall line | line in Split(queue[|queue| - 1].data, '\n') :: |line| <= LineWidth(queue[|queue| - 1].textSize)
  {
    WrappedLinesFit(text, LineWidth(textSize));
    StoredSizeKeepsWidth(textSize);
  }

  // ---------------------------------------------------------------- /send-image

  /**
   * POST /send-image: the file is required, then its type must be one of
   * `AllowedImageTypes`, then a well-formed target is needed; `render` stands
   * for reading the image and running the display pipeline, `None` when either
   * throws (500). A rendered image is queued for a registered target; an
   * unregistered target gets 404 after the image was rendered.
   */
  function SendImageStep(s: Registry, file: Option<Upload>, deviceIp: string, render: string -> Option<string>): (o: Outcome)
    ensures o.response != Success ==> o.next == s
    ensures file.None? ==> o.response == Failure(400, ImageRequired)
    ensures file.Some? && file.value.mimetype !in AllowedImageTypes ==> o.response == Failure(400, InvalidImageType)
    ensures file.Some? && file.value.mimetype in AllowedImageTypes && Target(s, deviceIp) == "" ==>
      o.response == Failure(400, NoDeviceIp)
    ensures file.Some? && file.value.mimetype in AllowedImageTypes && Target(s, deviceIp) != "" && !IsValidIPAddress(Target(s, deviceIp)) ==>
      o.response == Failure(400, InvalidIpFormat)
    ensures file.Some? && file.value.mimetype in AllowedImageTypes && IsValidIPAddress(Target(s, deviceIp)) && render(file.value.path).None? ==>
      o.response == Failure(500, ProcessingFailed)
    ensures (file.Some? && file.value.mimetype in AllowedImageTypes && IsValidIPAddress(Target(s, deviceIp)) &&
             render(file.value.path).Some? && Target(s, deviceIp) !in s.registeredDevices) ==>
      o.response == Failure(404, DeviceNotRegistered)
    ensures o.response == Failure(500, ProcessingFailed) ==> file.Some? && render(file.value.path).None?
    ensures o.response == Success <==>
      && file.Some? && file.value.mimetype in AllowedImageTypes
      && IsValidIPAddress(Target(s, deviceIp))
      && render(file.value.path).Some?
      && Target(s, deviceIp) in s.registeredDevices
    ensures o.response == Success ==>
      o.next == Enqueue(s, Target(s, deviceIp), ProcessedImage(render(file.value.path).value))
  {
    var target := Target(s, deviceIp);
    if file.None? then Outcome(s, Failure(400, ImageRequired))
    else if file.value.mimetype !in AllowedImageTypes then Outcome(s, Failure(400, InvalidImageType))
    else if target == "" then Outcome(s, Failure(400, NoDeviceIp))
    else if !IsValidIPAddress(target) then Outcome(s, Failure(400, InvalidIpFormat))
    else
      match render(file.value.path)
      case None => Outcome(s, Failure(500, ProcessingFailed))
      case Some(image) =>
        if target in s.registeredDevices then Outcome(Enqueue(s, target, ProcessedImage(image)), Success)
        else Outcome(s, Failure(404, DeviceNotRegistered))
  }

  lemma SendImageKeepsValid(s: Registry, file: Option<Upload>, deviceIp: string, render: string -> Option<string>)
    requires Valid(s)
    ensures Valid(SendImageStep(s, file, deviceIp, render).next)
  {
    var o := SendImageStep(s, file, deviceIp, render);
    if o.response == Success {
      EnqueueValid(s, Target(s, deviceIp), ProcessedImage(render(file.value.path).value));
    }
  }

  // ---------------------------------------------------------------- /clear-display

  /** POST /clear-display: a well-formed target is needed; a registered one gets a `Clear` item. */
  function ClearStep(s: Registry, deviceIp: string): (o: Outcome)
    ensures o.response != Success ==> o.next == s
    ensures Target(s, deviceIp) == "" ==> o.response == Failure(400, NoDeviceIp)
    ensures Target(s, deviceIp) != "" && !IsValidIPAddress(Target(s, deviceIp)) ==> o.response == Failure(400, InvalidIpFormat)
    ensures IsValidIPAddress(Target(s, deviceIp)) && Target(s, deviceIp) !in s.registeredDevices ==> o.response == Failure(404, DeviceNotRegistered)
    ensures o.response == Success <==> IsValidIPAddress(Target(s, deviceIp)) && Target(s, deviceIp) in s.registeredDevices
    ensures o.response == Success ==> o.next == Enqueue(s, Target(s, deviceIp), Clear)
  {
    var target := Target(s, deviceIp);
    if target == "" then Outcome(s, Failure(400, NoDeviceIp))
    else if !IsValidIPAddress(target) then Outcome(s, Failure(400, InvalidIpFormat))
    else if target in s.registeredDevices then Outcome(Enqueue(s, target, Clear), Success)
    else Outcome(s, Failure(404, DeviceNotRegistered))
  }

  lemma ClearKeepsValid(s: Registry, deviceIp: string)
    requires Valid(s)
    ensures Valid(ClearStep(s, deviceIp).next)
  {
    if ClearStep(s, deviceIp).response == Success {
      EnqueueValid(s, Target(s, deviceIp), Clear);
    }
  }

  /** Under the invariant the default device is unset or registered. */
  lemma DefaultTargetRegisteredOrUnset(s: Registry)
    requires Valid(s)
    ensures Target(s, "") == "" || Target(s, "") in s.registeredDevices
  {
  }

  /**
   * A request that names no device goes to the default device, which is
   * registered whenever it is set, so none of the three sending handlers
   * answers 404 to it.
   */
  lemma NoDeviceGivenNever404(s: Registry, text: string, textSize: string, file: Option<Upload>, render: string -> Option<string>)
    requires Valid(s)
    ensures SendTextStep(s, text, "", textSize).response != Failure(404, DeviceNotRegistered)
    ensures SendImageStep(s, file, "", render).response != Failure(404, DeviceNotRegistered)
    ensures ClearStep(s, "").response != Failure(404, DeviceNotRegistered)
  {
    DefaultTargetRegisteredOrUnset(s);
  }

  // ---------------------------------------------------------------- /device-queue

  /** GET /device-queue: the queue of a registered device, without removing anything. */
  function DeviceQueueStep(s: Registry, ip: string): (r: Response)
    ensures ip == "" ==> r == Failure(400, IpRequired)
    ensures ip != "" && ip !in s.registeredDevices ==> r == Failure(404, DeviceNotRegistered)
    ensures r.Queue? <==> ip != "" && ip in s.registeredDevices
    ensures r.Queue? ==> r.items == QueueOf(s, ip)
  {
    if ip == "" then Failure(400, IpRequired)
    else if ip !in s.registeredDevices then Failure(404, DeviceNotRegistered)
    else Queue(QueueOf(s, ip))
  }

  // ---------------------------------------------------------------- /heartbeat and UDP

  /** POST /heartbeat: a registered device's heartbeat time becomes `now`; the answer is always success. */
  function HeartbeatStep(s: Registry, ip: string, now: int): (o: Outcome)
    ensures o.response == Success
    ensures ip != "" && ip in s.registeredDevices ==> o.next == s.(deviceLastSeen := s.deviceLastSeen[ip := now])
    ensures !(ip != "" && ip in s.registeredDevices) ==> o.next == s
  {
    if ip != "" && ip in s.registeredDevices then
      Outcome(s.(deviceLastSeen := s.deviceLastSeen[ip := now]), Success)
    else
      Outcome(s, Success)
  }

  lemma HeartbeatKeepsValid(s: Registry, ip: string, now: int)
    requires Valid(s)
    ensures Valid(HeartbeatStep(s, ip, now).next)
  {
  }

  /**
   * A UDP datagram: `epd-online` registers its sender (unchecked) when new,
   * with an empty queue and poll time 0, and stamps its heartbeat time; any
   * other payload is ignored.
   */
  function UdpStep(s: Registry, msg: string, sender: string, now: int): (t: Registry)
    ensures msg != OnlineAnnouncement ==> t == s
    ensures msg == OnlineAnnouncement ==>
      && sender in t.registeredDevices
      && t.deviceLastSeen == s.deviceLastSeen[sender := now]
      && t.deviceStatus == s.deviceStatus
      && t.espDeviceIP == s.espDeviceIP
      && (sender in s.registeredDevices ==>
            t.registeredDevices == s.registeredDevices && t.contentQueue == s.contentQueue
            && t.lastFetchTimestamps == s.lastFetchTimestamps)
      && (sender !in s.registeredDevices ==>
            t.registeredDevices == s.registeredDevices + [sender] && t.contentQueue == s.contentQueue[sender := []]
            && t.lastFetchTimestamps == s.lastFetchTimestamps[sender := 0])
  {
    if msg != OnlineAnnouncement then s
    else
      var added := if sender !in s.registeredDevices then AddDevice(s, sender, 0) else s;
      added.(deviceLastSeen := added.deviceLastSeen[sender := now])
  }

  lemma UdpKeepsValid(s: Registry, msg: string, sender: string, now: int)
    requires Valid(s)
    ensures Valid(UdpStep(s, msg, sender, now))
  {
    if msg == OnlineAnnouncement && sender !in s.registeredDevices {
      AddDeviceValid(s, sender, 0);
    }
  }

  // ---------------------------------------------------------------- relations between handlers

  /**
   * The queues are first in, first out: appending to a non-empty queue does
   * not change what the next poll delivers, and the appended item stays at
   * the tail.
   */
  lemma PollDeliversOldestFirst(s: Registry, ip: string, item: Item, now: int)
    requires ip != "" && ip in s.registeredDevices && |QueueOf(s, ip)| > 0
    ensures PollStep(Enqueue(s, ip, item), ip, now).response == PollStep(s, ip, now).response
    ensures QueueOf(PollStep(Enqueue(s, ip, item), ip, now).next, ip) == QueueOf(PollStep(s, ip, now).next, ip) + [item]
  {
    var q := QueueOf(s, ip);
    assert (q + [item])[1..] == q[1..] + [item];
  }

  /** Text queued for a device with an empty queue is what its next poll delivers, leaving the queue empty again. */
  lemma SendTextThenPoll(s: Registry, text: string, ip: string, textSize: string, now: int)
    requires SendTextStep(s, text, ip, textSize).response == Success
    requires ip != "" && |QueueOf(s, ip)| == 0
    ensures PollStep(SendTextStep(s, text, ip, textSize).next, ip, now).response
      == Deliver(Text(Wrapped(text, LineWidth(textSize)), StoredTextSize(textSize)))
    ensures QueueOf(PollStep(SendTextStep(s, text, ip, textSize).next, ip, now).next, ip) == []
  {
    var t := SendTextStep(s, text, ip, textSize).next;
    assert QueueOf(t, ip) == [Text(Wrapped(text, LineWidth(textSize)), StoredTextSize(textSize))];
  }

  /** Registering again keeps what was queued, makes the device online and stamps its poll time. */
  lemma ReRegisterKeepsQueue(s: Registry, ip: string, now: int)
    requires IsValidIPAddress(ip) && ip in s.registeredDevices
    ensures QueueOf(RegisterStep(s, ip, now).next, ip) == QueueOf(s, ip)
    ensures StatusOf(RegisterStep(s, ip, now).next, ip) == Online
    ensures LastFetch(RegisterStep(s, ip, now).next, ip) == now
    ensures RegisterStep(s, ip, now).next.registeredDevices == s.registeredDevices
  {
    ValidAddressNonEmpty(ip);
  }

  /** A heartbeat changes at most the heartbeat time of the device that sent it, and only when it is registered. */
  lemma HeartbeatOnlyStampsRegistered(s: Registry, ip: string, now: int, other: string)
    ensures ip !in s.registeredDevices ==> HeartbeatStep(s, ip, now).next == s
    ensures other != ip && other in s.deviceLastSeen ==>
      other in HeartbeatStep(s, ip, now).next.deviceLastSeen &&
      HeartbeatStep(s, ip, now).next.deviceLastSeen[other] == s.deviceLastSeen[other]
    ensures ip in HeartbeatStep(s, ip, now).next.deviceLastSeen ==> ip in s.registeredDevices || ip in s.deviceLastSeen
  {
  }

  // ---------------------------------------------------------------- the server object

  /** The server's module-level state; its handlers update the fields in place. */
  class Server {
    var espDeviceIP: string
    var registeredDevices: seq<string>
    var contentQueue: map<string, seq<Item>>
    var lastFetchTimestamps: map<string, int>
    var deviceStatus: map<string, Status>
    var deviceLastSeen: map<string, int>

    function State(): Registry
      reads this
    {
      Registry(espDeviceIP, registeredDevices, contentQueue, lastFetchTimestamps, deviceStatus, deviceLastSeen)
    }

    constructor ()
      ensures State() == Initial()
      ensures Valid(State())
    {
      espDeviceIP := "";
      registeredDevices := [];
      contentQueue := map[];
      lastFetchTimestamps := map[];
      deviceStatus := map[];
      deviceLastSeen := map[];
    }

    /** POST /register-device. */
    method RegisterDevice(ip: string, now: int) returns (response: Response)
      modifies this
      ensures Outcome(State(), response) == RegisterStep(old(State()), ip, now)
      ensures Valid(old(State())) ==> Valid(State())
    {
      if Valid(State()) {
        RegisterKeepsValid(State(), ip, now);
      }
      if ip == "" {
        return Failure(400, IpRequired);
      }
      if !IsValidIPAddress(ip) {
        return Failure(400, InvalidIpFormat);
      }
      if ip !in registeredDevices {
        registeredDevices := registeredDevices + [ip];
        contentQueue := contentQueue[ip := []];
        lastFetchTimestamps := lastFetchTimestamps[ip := now];
        deviceStatus := deviceStatus[ip := Online];
      } else {
        lastFetchTimestamps := lastFetchTimestamps[ip := now];
        deviceStatus := deviceStatus[ip := Online];
      }
      response := Success;
    }

    /** POST /set-device. */
    method SetDevice(ip: string) returns (response: Response)
      modifies this
      ensures Outcome(State(), response) == SetDeviceStep(old(State()), ip)
      ensures Valid(old(State())) ==> Valid(State())
    {
      if Valid(State()) {
        SetDeviceKeepsValid(State(), ip);
      }
      if ip == "" {
        return Failure(400, IpRequired);
      }
      if !IsValidIPAddress(ip) {
        return Failure(400, InvalidIpFormat);
      }
      espDeviceIP := ip;
      if ip !in registeredDevices {
        registeredDevices := registeredDevices + [ip];
        contentQueue := contentQueue[ip := []];
        lastFetchTimestamps := lastFetchTimestamps[ip := 0];
      }
      response := Success;
    }

    /** POST /poll-content. */
    method PollContent(ip: string, now: int) returns (response: Response)
      modifies this
      ensures Outcome(State(), response) == PollStep(old(State()), ip, now)
      ensures Valid(old(State())) ==> Valid(State())
    {
      if Valid(State()) {
        PollKeepsValid(State(), ip, now);
      }
      if ip == "" || ip !in registeredDevices {
        return Failure(400, DeviceNotRegistered);
      }
      lastFetchTimestamps := lastFetchTimestamps[ip := now];
      deviceStatus := deviceStatus[ip := Online];
      if ip in contentQueue && |contentQueue[ip]| > 0 {
        var content := contentQueue[ip][0];
        contentQueue := contentQueue[ip := contentQueue[ip][1..]];
        return Deliver(content);
      }
      response := NoContent;
    }

    /** The `forEach` that marks timed-out devices offline; also the body of the one-minute timer. */
    method SweepTimeouts(now: int)
      modifies this
      ensures State() == SweepStep(old(State()), now)
      ensures Valid(old(State())) ==> Valid(State())
    {
      if Valid(State()) {
        SweepKeepsValid(State(), now);
      }
      ghost var before := State();
      var devices := registeredDevices;
      for i := 0 to |devices|
        invariant espDeviceIP == before.espDeviceIP && registeredDevices == before.registeredDevices
        invariant contentQueue == before.contentQueue && lastFetchTimestamps == before.lastFetchTimestamps
        invariant deviceLastSeen == before.deviceLastSeen
        invariant deviceStatus == SweepStatus(devices[..i], lastFetchTimestamps, before.deviceStatus, now)
      {
        var ip := devices[i];
        SweepStatusSnoc(devices, i, lastFetchTimestamps, before.deviceStatus, now);
        var lastFetch := if ip in lastFetchTimestamps then lastFetchTimestamps[ip] else 0;
        if now - lastFetch > DeviceTimeout {
          deviceStatus := deviceStatus[ip := Offline];
        }
      }
      assert devices[..|devices|] == devices;
    }

    /** GET /devices. */
    method ListDevices(now: int) returns (response: Response)
      modifies this
      ensures Outcome(State(), response) == ListDevicesStep(old(State()), now)
      ensures Valid(old(State())) ==> Valid(State())
    {
      SweepTimeouts(now);
      response := Devices(DeviceList(State()));
    }

    /** `contentQueue[ip].push(item)`, with the queue created when it is missing. */
    method Push(ip: string, item: Item)
      modifies this
      ensures State() == Enqueue(old(State()), ip, item)
    {
      var queue := if ip in contentQueue then contentQueue[ip] else [];
      contentQueue := contentQueue[ip := queue + [item]];
    }

    /** POST /send-text; the wrapping is the loop of `TextWrap.WrapText`. */
    method SendText(text: string, deviceIp: string, textSize: string) returns (response: Response)
      modifies this
      ensures Outcome(State(), response) == SendTextStep(old(State()), text, deviceIp, textSize)
      ensures Valid(old(State())) ==> Valid(State())
    {
      var targetIp := if deviceIp != "" then deviceIp else espDeviceIP;
      if text == "" {
        response := Failure(400, TextRequired);
      } else if |text| > MaxTextLength {
        response := Failure(400, TextTooLong);
      } else if targetIp == "" {
        response := Failure(400, NoDeviceIp);
      } else if !IsValidIPAddress(targetIp) {
        response := Failure(400, InvalidIpFormat);
      } else {
        var maxChars := MaxCharsPerLine;
        if textSize == "small" {
          maxChars := 55;
        } else if textSize == "large" {
          maxChars := 35;
        }
        assert maxChars == LineWidth(textSize);
        var wrappedText := WrapText(text, maxChars);
        if targetIp in registeredDevices {
          Push(targetIp, Text(wrappedText, if textSize != "" then textSize else "medium"));
          response := Success;
        } else {
          response := Failure(404, DeviceNotRegistered);
        }
      }
      if Valid(old(State())) {
        SendTextKeepsValid(old(State()), text, deviceIp, textSize);
      }
    }

    /**
     * POST /send-image. `cleanups` lists the uploaded files handed to the
     * clean-up helper, in order: the upload, once, on every path after it
     * exists.
     */
    method SendImage(file: Option<Upload>, deviceIp: string, render: string -> Option<string>)
      returns (response: Response, cleanups: seq<string>)
      modifies this
      ensures Outcome(State(), response) == SendImageStep(old(State()), file, deviceIp, render)
      ensures cleanups == if file.Some? then [file.value.path] else []
      ensures Valid(old(State())) ==> Valid(State())
    {
      if Valid(State()) {
        SendImageKeepsValid(State(), file, deviceIp, render);
      }
      cleanups := [];
      if file.None? {
        return Failure(400, ImageRequired), cleanups;
      }
      var upload := file.value;
      if upload.mimetype !in AllowedImageTypes {
        cleanups := cleanups + [upload.path];
        return Failure(400, InvalidImageType), cleanups;
      }
      var targetIp := if deviceIp != "" then deviceIp else espDeviceIP;
      if targetIp == "" {
        cleanups := cleanups + [upload.path];
        return Failure(400, NoDeviceIp), cleanups;
      }
      if !IsValidIPAddress(targetIp) {
        cleanups := cleanups + [upload.path];
        return Failure(400, InvalidIpFormat), cleanups;
      }
      var processed := render(upload.path);
      if processed.None? {
        cleanups := cleanups + [upload.path];
        return Failure(500, ProcessingFailed), cleanups;
      }
      if targetIp in registeredDevices {
        Push(targetIp, ProcessedImage(processed.value));
        cleanups := cleanups + [upload.path];
        return Success, cleanups;
      }
      cleanups := cleanups + [upload.path];
      response := Failure(404, DeviceNotRegistered);
    }

    /** POST /clear-display. */
    method ClearDisplay(deviceIp: string) returns (response: Response)
      modifies this
      ensures Outcome(State(), response) == ClearStep(old(State()), deviceIp)
      ensures Valid(old(State())) ==> Valid(State())
    {
      if Valid(State()) {
        ClearKeepsValid(State(), deviceIp);
      }
      var targetIp := if deviceIp != "" then deviceIp else espDeviceIP;
      if targetIp == "" {
        return Failure(400, NoDeviceIp);
      }
      if !IsValidIPAddress(targetIp) {
        return Failure(400, InvalidIpFormat);
      }
      if targetIp in registeredDevices {
        Push(targetIp, Clear);
        return Success;
      }
      response := Failure(404, DeviceNotRegistered);
    }

    /** GET /device-queue; reads the state and changes nothing. */
    method DeviceQueue(ip: string) returns (response: Response)
      ensures response == DeviceQueueStep(State(), ip)
      ensures response.Queue? <==> ip != "" && ip in registeredDevices
    {
      if ip == "" {
        return Failure(400, IpRequired);
      }
      if ip !in registeredDevices {
        return Failure(404, DeviceNotRegistered);
      }
      var queue := if ip in contentQueue then contentQueue[ip] else [];
      response := Queue(queue);
    }

    /** POST /heartbeat. */
    method Heartbeat(ip: string, now: int) returns (response: Response)
      modifies this
      ensures Outcome(State(), response) == HeartbeatStep(old(State()), ip, now)
      ensures Valid(old(State())) ==> Valid(State())
    {
      if Valid(State()) {
        HeartbeatKeepsValid(State(), ip, now);
      }
      if ip != "" && ip in registeredDevices {
        deviceLastSeen := deviceLastSeen[ip := now];
      }
      response := Success;
    }

    /** The UDP socket's `message` handler; `sender` is the datagram's source address. */
    method OnUdpMessage(msg: string, sender: string, now: int)
      modifies this
      ensures State() == UdpStep(old(State()), msg, sender, now)
      ensures Valid(old(State())) ==> Valid(State())
    {
      if Valid(State()) {
        UdpKeepsValid(State(), msg, sender, now);
      }
      if msg == OnlineAnnouncement {
        if sender !in registeredDevices {
          registeredDevices := registeredDevices + [sender];
          contentQueue := contentQueue[sender := []];
          lastFetchTimestamps := lastFetchTimestamps[sender := 0];
        }
        deviceLastSeen := deviceLastSeen[sender := now];
      }
    }
  }
}

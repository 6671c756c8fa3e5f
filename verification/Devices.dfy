/** Clients gathered into the devices of FTL's network table. */
module Devices {
  import opened Ascii
  import opened Options
  import opened Sorting

  /** `lastSeen` is the client's last query in Unix seconds, 0 when unknown. */
  datatype Client = Client(mac: Option<string>, ip: string, lastSeen: int)

  /** A reference to one of the client rows. */
  datatype Ref = Ref(row: nat, client: Client)

  datatype Device = Device(hwaddr: string, members: seq<Ref>)

  function Hwaddr(c: Client): string {
    match c.mac
    case Some(mac) => Lower(mac)
    case None => "ip-" + c.ip
  }

  /** The rows among the first `n` with this address, in row order. */
  function Rows(clients: seq<Client>, n: nat, hwaddr: string): seq<Ref>
    requires n <= |clients|
  {
    if n == 0 then []
    else Rows(clients, n - 1, hwaddr) + if Hwaddr(clients[n - 1]) == hwaddr then [Ref(n - 1, clients[n - 1])] else []
  }

  lemma {:induction false} RowsExactly(clients: seq<Client>, n: nat, hwaddr: string, r: Ref)
    requires n <= |clients|
    ensures r in Rows(clients, n, hwaddr) <==> IsRow(clients, n, hwaddr, r)
    decreases n
  {
    if n > 0 {
      RowsExactly(clients, n - 1, hwaddr, r);
      RowStep(clients, n, hwaddr, r);
    }
  }

  lemma RowStep(clients: seq<Client>, n: nat, hwaddr: string, r: Ref)
    requires 0 < n <= |clients|
    requires r in Rows(clients, n - 1, hwaddr) <==> IsRow(clients, n - 1, hwaddr, r)
    ensures r in Rows(clients, n, hwaddr) <==> IsRow(clients, n, hwaddr, r)
  {
    RowsStep(clients, n, hwaddr, r);
    IsRowStep(clients, n, hwaddr, r);
  }

  lemma RowsStep(clients: seq<Client>, n: nat, hwaddr: string, r: Ref)
    requires 0 < n <= |clients|
    ensures r in Rows(clients, n, hwaddr) <==>
            r in Rows(clients, n - 1, hwaddr) || (r == Ref(n - 1, clients[n - 1]) && Hwaddr(clients[n - 1]) == hwaddr)
  {
    InAppended(Rows(clients, n - 1, hwaddr), Ref(n - 1, clients[n - 1]), Hwaddr(clients[n - 1]) == hwaddr, r);
  }

  lemma IsRowStep(clients: seq<Client>, n: nat, hwaddr: string, r: Ref)
    requires 0 < n <= |clients|
    ensures IsRow(clients, n, hwaddr, r) <==>
            IsRow(clients, n - 1, hwaddr, r) || (r == Ref(n - 1, clients[n - 1]) && Hwaddr(clients[n - 1]) == hwaddr)
  {
  }

  lemma InAppended(rows: seq<Ref>, row: Ref, added: bool, r: Ref)
    ensures r in rows + (if added then [row] else []) <==> r in rows || (r == row && added)
  {
  }

  predicate IsRow(clients: seq<Client>, n: nat, hwaddr: string, r: Ref)
    requires n <= |clients|
  {
    r.row < n && r.client == clients[r.row] && Hwaddr(r.client) == hwaddr
  }

  /** Row numbers rise and stay below `bound`. */
  ghost predicate Ascending(rows: seq<Ref>, bound: nat) {
    && (forall a :: 0 <= a < |rows| ==> rows[a].row < bound)
    && (forall a, b :: 0 <= a < b < |rows| ==> rows[a].row < rows[b].row)
  }

  lemma AscendingAppended(rows: seq<Ref>, row: Ref, added: bool)
    requires Ascending(rows, row.row)
    ensures Ascending(rows + (if added then [row] else []), row.row + 1)
  {
  }

  lemma {:induction false} RowsAscend(clients: seq<Client>, n: nat, hwaddr: string)
    requires n <= |clients|
    ensures Ascending(Rows(clients, n, hwaddr), n)
  {
    if n > 0 {
      RowsAscend(clients, n - 1, hwaddr);
      AscendingAppended(Rows(clients, n - 1, hwaddr), Ref(n - 1, clients[n - 1]), Hwaddr(clients[n - 1]) == hwaddr);
    }
  }

  function LastQuery(members: seq<Ref>): int {
    if members == [] then 0
    else if |members| == 1 then members[0].client.lastSeen
    else
      var (last, rest) := (members[|members| - 1].client.lastSeen, LastQuery(members[..|members| - 1]));
      if rest > last then rest else last
  }

  /** LastQuery is the latest of the members' times. */
  lemma {:induction false} LastQueryIsLatest(members: seq<Ref>, r: Ref)
    requires r in members
    ensures r.client.lastSeen <= LastQuery(members)
    ensures exists m :: m in members && m.client.lastSeen == LastQuery(members)
  {
    var n := |members| - 1;
    assert members[n] in members;
    if n > 0 {
      LastQueryIsLatest(members[..n], if r in members[..n] then r else members[0]);
      var m :| m in members[..n] && m.client.lastSeen == LastQuery(members[..n]);
      assert m in members;
    }
  }

  function FirstRow(d: Device): nat {
    if d.members == [] then 0 else d.members[0].row
  }

  /** Most recently active first; equally active in the order they were first met. */
  predicate Before(a: Device, b: Device) {
    || LastQuery(a.members) > LastQuery(b.members)
    || (LastQuery(a.members) == LastQuery(b.members) && FirstRow(a) < FirstRow(b))
  }

  /** Whether `d` holds exactly the first `n` rows of its address, and at least one. */
  ghost predicate Gathers(clients: seq<Client>, n: nat, d: Device)
    requires n <= |clients|
  {
    d.members == Rows(clients, n, d.hwaddr) && d.members != []
  }

  /** What group_devices promises: the device of every address that occurs, in order. */
  ghost predicate IsGrouping(clients: seq<Client>, devices: seq<Device>) {
    && (forall d :: d in devices ==> Gathers(clients, |clients|, d))
    && (forall i :: 0 <= i < |clients| ==> HasAddress(devices, Hwaddr(clients[i])))
    && Ordered(devices, Before)
  }

  ghost predicate HasAddress(devices: seq<Device>, hwaddr: string) {
    exists d :: d in devices && d.hwaddr == hwaddr
  }

  /** `byHwaddr` finds the slot of every address, and only those. */
  ghost predicate Indexed(devices: seq<Device>, byHwaddr: map<string, nat>) {
    && (forall d :: 0 <= d < |devices| ==> devices[d].hwaddr in byHwaddr && byHwaddr[devices[d].hwaddr] == d)
    && (forall h :: h in byHwaddr ==> byHwaddr[h] < |devices| && devices[byHwaddr[h]].hwaddr == h)
  }

  /** The loop after `n` rows: every slot gathers its rows, in order of first row. */
  ghost predicate Progress(clients: seq<Client>, n: nat, devices: seq<Device>)
    requires n <= |clients|
  {
    && (forall d :: 0 <= d < |devices| ==> Gathers(clients, n, devices[d]))
    && (forall d, e :: 0 <= d < e < |devices| ==> FirstRow(devices[d]) < FirstRow(devices[e]))
  }

  /** The slot map knows the address of each of the first `n` rows, and nothing else. */
  ghost predicate Gathering(clients: seq<Client>, n: nat, devices: seq<Device>, byHwaddr: map<string, nat>)
    requires n <= |clients|
  {
    && Progress(clients, n, devices) && Indexed(devices, byHwaddr)
    && forall i :: 0 <= i < n ==> Hwaddr(clients[i]) in byHwaddr
  }

  method GroupDevices(clients: seq<Client>) returns (devices: seq<Device>)
    ensures IsGrouping(clients, devices)
  {
    devices := [];
    var byHwaddr: map<string, nat> := map[];
    for n := 0 to |clients|
      invariant Gathering(clients, n, devices, byHwaddr)
    {
      GatherStep(clients, n, devices, byHwaddr);
      var hwaddr := Hwaddr(clients[n]);
      if hwaddr !in byHwaddr {
        devices := devices + [Device(hwaddr, [])];
        byHwaddr := byHwaddr[hwaddr := |devices| - 1];
      }
      devices := Joined(devices, byHwaddr[hwaddr], Ref(n, clients[n]));
    }
    AllGathered(clients, devices, byHwaddr);
    devices := SortByActivity(clients, devices);
  }

  lemma GatherStep(clients: seq<Client>, n: nat, devices: seq<Device>, byHwaddr: map<string, nat>)
    requires n < |clients| && Gathering(clients, n, devices, byHwaddr)
    ensures var (hwaddr, row) := (Hwaddr(clients[n]), Ref(n, clients[n]));
            if hwaddr in byHwaddr then Gathering(clients, n + 1, Joined(devices, byHwaddr[hwaddr], row), byHwaddr)
            else Gathering(clients, n + 1, Joined(devices + [Device(hwaddr, [])], |devices|, row),
                           byHwaddr[hwaddr := |devices|])
  {
    var hwaddr, row := Hwaddr(clients[n]), Ref(n, clients[n]);
    if hwaddr in byHwaddr {
      JoinsDevice(clients, n, devices, byHwaddr[hwaddr]);
      IndexedJoined(devices, byHwaddr, byHwaddr[hwaddr], row);
    } else {
      OpensDevice(clients, n, devices);
      IndexedOpened(devices, byHwaddr, Device(hwaddr, [row]));
      assert Joined(devices + [Device(hwaddr, [])], |devices|, row) == devices + [Device(hwaddr, [row])];
    }
  }

  lemma AllGathered(clients: seq<Client>, devices: seq<Device>, byHwaddr: map<string, nat>)
    requires Gathering(clients, |clients|, devices, byHwaddr)
    ensures forall i :: 0 <= i < |clients| ==> HasAddress(devices, Hwaddr(clients[i]))
  {
    forall i | 0 <= i < |clients| ensures HasAddress(devices, Hwaddr(clients[i])) {
      assert devices[byHwaddr[Hwaddr(clients[i])]] in devices;
    }
  }

  function Joined(devices: seq<Device>, slot: nat, row: Ref): seq<Device>
    requires slot < |devices|
  {
    devices[slot := devices[slot].(members := devices[slot].members + [row])]
  }

  lemma IndexedOpened(devices: seq<Device>, byHwaddr: map<string, nat>, d: Device)
    requires Indexed(devices, byHwaddr) && d.hwaddr !in byHwaddr
    ensures Indexed(devices + [d], byHwaddr[d.hwaddr := |devices|])
  {
  }

  lemma IndexedJoined(devices: seq<Device>, byHwaddr: map<string, nat>, slot: nat, row: Ref)
    requires Indexed(devices, byHwaddr) && slot < |devices|
    ensures Indexed(Joined(devices, slot, row), byHwaddr)
  {
    forall d | 0 <= d < |devices| ensures Joined(devices, slot, row)[d].hwaddr == devices[d].hwaddr {
    }
  }

  lemma OtherAddress(clients: seq<Client>, n: nat, d: Device)
    requires n < |clients| && Gathers(clients, n, d) && d.hwaddr != Hwaddr(clients[n])
    ensures Gathers(clients, n + 1, d)
  {
  }

  lemma JoinsDevice(clients: seq<Client>, n: nat, devices: seq<Device>, slot: nat)
    requires n < |clients| && Progress(clients, n, devices)
    requires slot < |devices| && devices[slot].hwaddr == Hwaddr(clients[n])
    requires forall d :: 0 <= d < |devices| && d != slot ==> devices[d].hwaddr != devices[slot].hwaddr
    ensures Progress(clients, n + 1, Joined(devices, slot, Ref(n, clients[n])))
  {
    var after := Joined(devices, slot, Ref(n, clients[n]));
    forall d | 0 <= d < |after|
      ensures Gathers(clients, n + 1, after[d]) && FirstRow(after[d]) == FirstRow(devices[d])
    {
      assert Gathers(clients, n, devices[d]);
      if d != slot {
        OtherAddress(clients, n, devices[d]);
      }
    }
  }

  lemma OpensDevice(clients: seq<Client>, n: nat, devices: seq<Device>)
    requires n < |clients| && Progress(clients, n, devices)
    requires forall i :: 0 <= i < n ==> Hwaddr(clients[i]) != Hwaddr(clients[n])
    requires forall d :: 0 <= d < |devices| ==> devices[d].hwaddr != Hwaddr(clients[n])
    ensures Progress(clients, n + 1, devices + [Device(Hwaddr(clients[n]), [Ref(n, clients[n])])])
  {
    NoRowsYet(clients, n, Hwaddr(clients[n]));
    forall d | 0 <= d < |devices| ensures Gathers(clients, n + 1, devices[d]) && FirstRow(devices[d]) < n {
      OtherAddress(clients, n, devices[d]);
      RowsAscend(clients, n, devices[d].hwaddr);
    }
  }

  lemma {:induction false} NoRowsYet(clients: seq<Client>, n: nat, hwaddr: string)
    requires n <= |clients| && forall i :: 0 <= i < n ==> Hwaddr(clients[i]) != hwaddr
    ensures Rows(clients, n, hwaddr) == []
  {
    if n > 0 {
      NoRowsYet(clients, n - 1, hwaddr);
    }
  }

  lemma BeforeIsStrict()
    ensures StrictOrder(Before)
  {
  }

  /** The stable sort by last query, latest first: devices come in order of their first
      row, which is what Before falls back on. */
  method SortByActivity(clients: seq<Client>, devices: seq<Device>) returns (sorted: seq<Device>)
    requires Progress(clients, |clients|, devices)
    requires forall i :: 0 <= i < |clients| ==> HasAddress(devices, Hwaddr(clients[i]))
    ensures IsGrouping(clients, sorted)
  {
    sorted := [];
    for n := 0 to |devices|
      invariant Ordered(sorted, Before)
      invariant forall d :: d in sorted <==> d in devices[..n]
    {
      PlaceNext(sorted, devices, n);
      sorted := Placed(sorted, devices[n], Before);
    }
    assert devices[..|devices|] == devices;
    OrderedIsGrouping(clients, devices, sorted);
  }

  lemma PlaceNext(sorted: seq<Device>, devices: seq<Device>, n: nat)
    requires n < |devices| && Ordered(sorted, Before)
    requires forall d, e :: 0 <= d < e < |devices| ==> FirstRow(devices[d]) < FirstRow(devices[e])
    requires forall d :: d in sorted <==> d in devices[..n]
    ensures Ordered(Placed(sorted, devices[n], Before), Before)
    ensures forall d :: d in Placed(sorted, devices[n], Before) <==> d in devices[..n + 1]
  {
    var x := devices[n];
    forall d <- sorted ensures Before(d, x) || Before(x, d) {
      var i :| 0 <= i < n && devices[..n][i] == d;
      assert FirstRow(devices[i]) < FirstRow(x);
    }
    PlacedInOrder(sorted, x, Before);
    forall d ensures d in Placed(sorted, x, Before) <==> d in devices[..n + 1] {
      PlacedHas(sorted, x, Before, d);
      assert devices[..n + 1] == devices[..n] + [x];
    }
  }

  lemma OrderedIsGrouping(clients: seq<Client>, devices: seq<Device>, sorted: seq<Device>)
    requires Progress(clients, |clients|, devices) && Ordered(sorted, Before)
    requires forall i :: 0 <= i < |clients| ==> HasAddress(devices, Hwaddr(clients[i]))
    requires forall d :: d in sorted <==> d in devices
    ensures IsGrouping(clients, sorted)
  {
    forall i | 0 <= i < |clients| ensures HasAddress(sorted, Hwaddr(clients[i])) {
      assert HasAddress(devices, Hwaddr(clients[i]));
    }
  }

  /** Two rows share a device exactly when they have the same address. */
  lemma ShareExactlyByAddress(clients: seq<Client>, devices: seq<Device>, i: nat, j: nat)
    requires IsGrouping(clients, devices) && i < |clients| && j < |clients|
    ensures (exists d :: d in devices && Ref(i, clients[i]) in d.members && Ref(j, clients[j]) in d.members)
            <==> Hwaddr(clients[i]) == Hwaddr(clients[j])
  {
    forall d | d in devices
      ensures Ref(i, clients[i]) in d.members <==> d.hwaddr == Hwaddr(clients[i])
      ensures Ref(j, clients[j]) in d.members <==> d.hwaddr == Hwaddr(clients[j])
    {
      RowsExactly(clients, |clients|, d.hwaddr, Ref(i, clients[i]));
      RowsExactly(clients, |clients|, d.hwaddr, Ref(j, clients[j]));
    }
    assert HasAddress(devices, Hwaddr(clients[i]));
  }

  /** Addresses never repeat, so the devices partition the rows. */
  lemma AddressesAreDistinct(clients: seq<Client>, devices: seq<Device>, d: nat, e: nat)
    requires IsGrouping(clients, devices) && d < e < |devices|
    ensures devices[d].hwaddr != devices[e].hwaddr
    ensures forall r :: r in devices[d].members ==> r !in devices[e].members
  {
    var (a, b) := (devices[d], devices[e]);
    BeforeIsStrict();
    OrderedPairs(devices, Before, d, e);
    DistinctByOrder(clients, a, b);
    forall r | r in a.members ensures r !in b.members {
      RowsExactly(clients, |clients|, a.hwaddr, r);
      RowsExactly(clients, |clients|, b.hwaddr, r);
    }
  }

  lemma DistinctByOrder(clients: seq<Client>, a: Device, b: Device)
    requires Gathers(clients, |clients|, a) && Gathers(clients, |clients|, b) && Before(a, b)
    ensures a.hwaddr != b.hwaddr
  {
  }

  /** The promise leaves one possible answer. */
  lemma {:induction false} GroupingIsUnique(clients: seq<Client>, a: seq<Device>, b: seq<Device>)
    requires IsGrouping(clients, a) && IsGrouping(clients, b)
    ensures a == b
  {
    SameDevices(clients, a, b);
    SameDevices(clients, b, a);
    BeforeIsStrict();
    OrderIsUnique(a, b, Before);
  }

  lemma SameDevices(clients: seq<Client>, a: seq<Device>, b: seq<Device>)
    requires IsGrouping(clients, a) && IsGrouping(clients, b)
    ensures forall d :: d in a ==> d in b
  {
    forall d | d in a ensures d in b {
      var r := d.members[0];
      RowsExactly(clients, |clients|, d.hwaddr, r);
      assert HasAddress(b, Hwaddr(clients[r.row]));
      var e :| e in b && e.hwaddr == d.hwaddr;
      assert e.members == d.members;
    }
  }

  /** One hardware address: the same MAC in whatever case, or, for clients without one, the
      same IP address; a MAC that reads "ip-" and an address counts as that client's. */
  predicate SameHardware(a: Client, b: Client) {
    match (a.mac, b.mac)
    case (Some(m), Some(n)) => SameIgnoringCase(m, n)
    case (None, None) => a.ip == b.ip
    case (Some(m), None) => Lower(m) == ['i', 'p', '-'] + b.ip
    case (None, Some(n)) => Lower(n) == ['i', 'p', '-'] + a.ip
  }

  lemma MockAddress(c: Client)
    requires c.mac.None?
    ensures Hwaddr(c) == ['i', 'p', '-'] + c.ip && Hwaddr(c)[3..] == c.ip
  {
    assert "ip-" == ['i', 'p', '-'];
  }

  lemma HwaddrExactly(a: Client, b: Client)
    ensures Hwaddr(a) == Hwaddr(b) <==> SameHardware(a, b)
  {
    if a.mac.None? {
      MockAddress(a);
    }
    if b.mac.None? {
      MockAddress(b);
    }
    if a.mac.Some? && b.mac.Some? {
      LowerEqualExactly(a.mac.value, b.mac.value);
    }
  }

  /** Two rows share a device exactly when their MAC and IP addresses say so. */
  lemma ShareExactly(clients: seq<Client>, devices: seq<Device>, i: nat, j: nat)
    requires IsGrouping(clients, devices) && i < |clients| && j < |clients|
    ensures (exists d :: d in devices && Ref(i, clients[i]) in d.members && Ref(j, clients[j]) in d.members)
            <==> SameHardware(clients[i], clients[j])
  {
    ShareExactlyByAddress(clients, devices, i, j);
    HwaddrExactly(clients[i], clients[j]);
  }

  /** A device is named by its clients' MAC in lower case, or "ip-" and the address. */
  lemma NamedByItsClients(clients: seq<Client>, devices: seq<Device>, d: Device, r: Ref)
    requires IsGrouping(clients, devices) && d in devices && r in d.members
    ensures r.row < |clients| && r.client == clients[r.row]
    ensures match r.client.mac
            case Some(mac) => SameIgnoringCase(d.hwaddr, mac) && IsLower(d.hwaddr)
            case None => d.hwaddr == ['i', 'p', '-'] + r.client.ip
  {
    RowsExactly(clients, |clients|, d.hwaddr, r);
    match r.client.mac {
      case Some(mac) =>
        LowerIsLower(mac);
        LowerIsLower(d.hwaddr);
        LowerEqualExactly(d.hwaddr, mac);
      case None => MockAddress(r.client);
    }
  }

  /** Some client of `a` was seen after every client of `b`. */
  ghost predicate SeenLater(a: Device, b: Device) {
    exists m :: m in a.members && forall r :: r in b.members ==> r.client.lastSeen < m.client.lastSeen
  }

  /** Devices come most recently active first, equally active ones in the order of their
      first clients. */
  lemma ListedByActivity(clients: seq<Client>, devices: seq<Device>, d: nat, e: nat)
    requires IsGrouping(clients, devices) && d < e < |devices|
    ensures var (a, b) := (devices[d], devices[e]);
            && a.members != [] && b.members != []
            && (SeenLater(a, b) || (!SeenLater(b, a) && a.members[0].row < b.members[0].row))
  {
    var a, b := devices[d], devices[e];
    BeforeIsStrict();
    OrderedPairs(devices, Before, d, e);
    assert Gathers(clients, |clients|, a) && Gathers(clients, |clients|, b);
    SeenLaterExactly(a, b);
    SeenLaterExactly(b, a);
  }

  lemma SeenLaterExactly(a: Device, b: Device)
    requires a.members != [] && b.members != []
    ensures SeenLater(a, b) <==> LastQuery(a.members) > LastQuery(b.members)
  {
    LastQueryIsLatest(a.members, a.members[0]);
    LastQueryIsLatest(b.members, b.members[0]);
    if LastQuery(a.members) > LastQuery(b.members) {
      var m :| m in a.members && m.client.lastSeen == LastQuery(a.members);
      forall r | r in b.members ensures r.client.lastSeen < m.client.lastSeen {
        LastQueryIsLatest(b.members, r);
      }
    }
    if SeenLater(a, b) {
      var m :| m in a.members && forall r :: r in b.members ==> r.client.lastSeen < m.client.lastSeen;
      var r :| r in b.members && r.client.lastSeen == LastQuery(b.members);
      LastQueryIsLatest(a.members, m);
    }
  }
}

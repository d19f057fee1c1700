/** Device pairing: a device says hello and is shown a six-digit code that expires; a user
    binds the device by entering the code. */
module Devices {
  import opened Seqs
  import opened Domain
  import opened BindCodes

  const BIND_CODE_TTL: Time := 600_000_000_000
  const BIND_CODE_TTL_SECONDS := 600

  function IdIs(id: string): Device -> bool {
    (d: Device) => d.id == id
  }

  function CodeIs(code: string): Device -> bool {
    (d: Device) => d.bindCode == code
  }

  function OwnedBy(owner: string): Device -> bool {
    (d: Device) => d.ownerId == owner
  }

  function OwnedAs(owner: string, id: string): Device -> bool {
    (d: Device) => d.id == id && d.ownerId == owner
  }

  predicate Expired(d: Device, now: Time) {
    d.bindCodeExpiresAt == None || d.bindCodeExpiresAt.value < now
  }

  predicate NeedsCode(d: Device, now: Time) {
    d.ownerId == "" && (d.bindCode == "" || Expired(d, now))
  }

  function Greeting(d: Device, now: Time): DeviceHello {
    var bound := d.ownerId != "";
    DeviceHello(d.id, bound, d.name, if bound then "" else d.bindCode,
                if bound then 0 else BIND_CODE_TTL_SECONDS, now, d.boundAt)
  }

  // ---- The four operations on the device table ----

  datatype HelloOutcome = Denied | Greeted(devices: seq<Device>, hello: DeviceHello)

  /** Whether a hello draws a new code: the device is unknown, or its code has lapsed. */
  predicate DrawsCode(devices: seq<Device>, id: string, secretHash: string, now: Time) {
    var i := FirstIndex(IdIs(id), devices);
    i < 0 || (devices[i].secretHash == secretHash && NeedsCode(devices[i], now))
  }

  function NewDevice(id: string, secretHash: string, code: string, now: Time): Device {
    Device(id, "", "", secretHash, code, Some(now + BIND_CODE_TTL), None, Some(now), now)
  }

  function Seen(d: Device, code: string, now: Time): Device {
    if NeedsCode(d, now)
    then d.(lastSeenAt := Some(now), bindCode := code, bindCodeExpiresAt := Some(now + BIND_CODE_TTL))
    else d.(lastSeenAt := Some(now))
  }

  function Hello(devices: seq<Device>, id: string, secretHash: string, code: string, now: Time): HelloOutcome {
    var i := FirstIndex(IdIs(id), devices);
    if i < 0 then
      var d := NewDevice(id, secretHash, code, now);
      Greeted(devices + [d], Greeting(d, now))
    else if devices[i].secretHash != secretHash then Denied
    else
      var d := Seen(devices[i], code, now);
      Greeted(devices[i := d], Greeting(d, now))
  }

  datatype BindOutcome = CodeUnknown | Refused | Bound(devices: seq<Device>, device: Device)

  function Taken(d: Device, owner: string, name: string, now: Time): Device {
    d.(ownerId := owner, name := if name == "" then d.id else name,
       bindCode := "", bindCodeExpiresAt := None, boundAt := Some(now))
  }

  function Bind(devices: seq<Device>, owner: string, code: string, name: string, now: Time): BindOutcome {
    var i := FirstIndex(CodeIs(code), devices);
    if i < 0 then CodeUnknown
    else if devices[i].ownerId != "" || Expired(devices[i], now) then Refused
    else
      var d := Taken(devices[i], owner, name, now);
      Bound(devices[i := d], d)
  }

  datatype ManageOutcome = NoDevice | Managed(devices: seq<Device>, device: Device)

  function Rename(devices: seq<Device>, owner: string, id: string, name: string): ManageOutcome {
    var i := FirstIndex(OwnedAs(owner, id), devices);
    if i < 0 then NoDevice
    else
      var d := devices[i].(name := name);
      Managed(devices[i := d], d)
  }

  function Delete(devices: seq<Device>, owner: string, id: string): ManageOutcome {
    var i := FirstIndex(OwnedAs(owner, id), devices);
    if i < 0 then NoDevice else Managed(RemoveAt(devices, i), devices[i])
  }

  // ---- What the table always satisfies ----

  /** Bound exactly when the code and its expiry are gone and the binding time is set. */
  predicate PairingState(d: Device) {
    if d.ownerId != ""
    then d.bindCode == "" && d.bindCodeExpiresAt == None && d.boundAt.Some?
    else IsCode(d.bindCode) && d.bindCodeExpiresAt.Some? && d.boundAt == None
  }

  /** Ids differ; codes in use differ. */
  predicate Distinct(d: Device, e: Device) {
    d.id != e.id && (d.bindCode == "" || d.bindCode != e.bindCode)
  }

  ghost predicate DevicesInv(devices: seq<Device>) {
    && (forall i :: 0 <= i < |devices| ==> PairingState(devices[i]))
    && (forall i, j :: 0 <= i < |devices| && 0 <= j < |devices| && i != j ==> Distinct(devices[i], devices[j]))
  }

  predicate FreeCode(devices: seq<Device>, code: string) {
    IsCode(code) && forall i :: 0 <= i < |devices| ==> devices[i].bindCode != code
  }

  ghost predicate OneChanged(before: seq<Device>, after: seq<Device>, i: int) {
    && |after| == |before|
    && 0 <= i < |before|
    && (forall j :: 0 <= j < |before| && j != i ==> after[j] == before[j])
  }

  // ---- What a hello does, field by field ----

  /** Some device with this id carries this secret. */
  ghost predicate Carries(devices: seq<Device>, id: string, secretHash: string) {
    exists i :: 0 <= i < |devices| && devices[i].id == id && devices[i].secretHash == secretHash
  }

  ghost predicate CarriesAnother(devices: seq<Device>, id: string, secretHash: string) {
    exists i :: 0 <= i < |devices| && devices[i].id == id && devices[i].secretHash != secretHash
  }

  /** A hello is denied exactly if a device with this id carries another secret. */
  lemma HelloChecksSecret(devices: seq<Device>, id: string, secretHash: string, code: string, now: Time)
    requires DevicesInv(devices)
    ensures Hello(devices, id, secretHash, code, now).Denied? <==> CarriesAnother(devices, id, secretHash)
  {
    var i := FirstIndex(IdIs(id), devices);
    if CarriesAnother(devices, id, secretHash) {
      var j :| 0 <= j < |devices| && devices[j].id == id && devices[j].secretHash != secretHash;
      var distinct := Distinct(devices[i], devices[j]);
    }
  }

  /** After a greeted hello the one device with the id carries the secret it gave, so the next
      hello is greeted exactly with that secret. */
  lemma HelloRemembersSecret(devices: seq<Device>, id: string, secretHash: string, code: string, now: Time,
                             nextHash: string, nextCode: string, later: Time)
    requires DevicesInv(devices)
    requires DrawsCode(devices, id, secretHash, now) ==> FreeCode(devices, code)
    ensures var h := Hello(devices, id, secretHash, code, now);
      h.Greeted? ==>
        && Carries(h.devices, id, secretHash) && !CarriesAnother(h.devices, id, secretHash)
        && (Hello(h.devices, id, nextHash, nextCode, later).Greeted? <==> nextHash == secretHash)
  {
    var h := Hello(devices, id, secretHash, code, now);
    if h.Greeted? {
      HelloGivesUsableCode(devices, id, secretHash, code, now);
      var i := FirstIndex(IdIs(id), devices);
      var k := if i < 0 then |devices| else i;
      assert h.devices[k].id == id && h.devices[k].secretHash == secretHash;
      OneWithId(h.devices, k);
      HelloChecksSecret(h.devices, id, nextHash, nextCode, later);
    }
  }

  lemma OneWithId(devices: seq<Device>, k: nat)
    requires DevicesInv(devices) && k < |devices|
    ensures forall i :: 0 <= i < |devices| && devices[i].id == devices[k].id ==> i == k
  {
    forall i | 0 <= i < |devices| && devices[i].id == devices[k].id
      ensures i == k
    {
      var distinct := Distinct(devices[i], devices[k]);
    }
  }

  /** A device seen again: it keeps what it is, and its code unless that had lapsed. */
  predicate SeenAgain(before: Device, after: Device, code: string, now: Time) {
    && after.id == before.id && after.ownerId == before.ownerId && after.name == before.name
    && after.secretHash == before.secretHash && after.boundAt == before.boundAt && after.createdAt == before.createdAt
    && after.lastSeenAt == Some(now)
    && (if before.ownerId == "" && before.bindCodeExpiresAt.Some? && before.bindCodeExpiresAt.value < now
        then after.bindCode == code && after.bindCodeExpiresAt == Some(now + 600_000_000_000)
        else after.bindCode == before.bindCode && after.bindCodeExpiresAt == before.bindCodeExpiresAt)
  }

  /** What the caller is told about the device. */
  predicate Describes(hello: DeviceHello, d: Device, now: Time) {
    && hello.deviceId == d.id && hello.name == d.name && hello.boundAt == d.boundAt && hello.serverTime == now
    && (d.ownerId == "" ==> !hello.bound && hello.bindCode == d.bindCode && hello.bindCodeTtl == 600)
    && (d.ownerId != "" ==> hello.bound && hello.bindCode == "" && hello.bindCodeTtl == 0)
  }

  /** One device is written: the known one with the id, seen again, or a new one, without an
      owner, whose code is good for ten minutes. It carries the secret, and `hello` is about it. */
  ghost predicate HelloStored(before: seq<Device>, after: seq<Device>, hello: DeviceHello, k: int, id: string,
                              secretHash: string, code: string, now: Time)
  {
    && 0 <= k < |after|
    && after[k].id == id && after[k].secretHash == secretHash
    && Describes(hello, after[k], now)
    && (if exists i :: 0 <= i < |before| && before[i].id == id
        then |after| == |before| && SeenAgain(before[k], after[k], code, now)
        else
          && k == |before| == |after| - 1
          && after[k] == Device(id, "", "", secretHash, code, Some(now + 600_000_000_000), None, Some(now), now))
    && (forall j :: 0 <= j < |before| && j != k ==> after[j] == before[j])
  }

  lemma HelloWrites(devices: seq<Device>, id: string, secretHash: string, code: string, now: Time) returns (k: nat)
    requires DevicesInv(devices)
    ensures var h := Hello(devices, id, secretHash, code, now);
      h.Greeted? ==> HelloStored(devices, h.devices, h.hello, k, id, secretHash, code, now)
  {
    var i := FirstIndex(IdIs(id), devices);
    k := if i < 0 then |devices| else i;
    if 0 <= i {
      assert PairingState(devices[i]);
    }
  }

  /** A hello keeps the table consistent; an unbound caller leaves with a code that is not
      expired, is its own, and is new exactly when the old one had lapsed. */
  lemma HelloGivesUsableCode(devices: seq<Device>, id: string, secretHash: string, code: string, now: Time)
    requires DevicesInv(devices)
    requires DrawsCode(devices, id, secretHash, now) ==> FreeCode(devices, code)
    ensures var h := Hello(devices, id, secretHash, code, now);
      h.Greeted? ==>
        && DevicesInv(h.devices)
        && h.hello.deviceId == id && h.hello.serverTime == now
        && (h.hello.bound <==> h.hello.boundAt.Some?)
        && (h.hello.bound ==> h.hello.bindCode == "" && h.hello.bindCodeTtl == 0)
        && (!h.hello.bound ==>
              exists e :: now <= e && CodeLive(h.devices, id, h.hello.bindCode, e))
        && (DrawsCode(devices, id, secretHash, now) <==>
              !h.hello.bound && FirstIndex(CodeIs(h.hello.bindCode), devices) < 0)
  {
    var i := FirstIndex(IdIs(id), devices);
    var h := Hello(devices, id, secretHash, code, now);
    if h.Greeted? {
      var k := if i < 0 then |devices| else i;
      var d := h.devices[k];
      assert 0 <= i ==> PairingState(devices[i]);
      forall j | 0 <= j < |h.devices| && j != k
        ensures Distinct(d, h.devices[j]) && Distinct(h.devices[j], d)
      {
        assert h.devices[j] == devices[j];
      }
      if !h.hello.bound {
        assert CodeLive(h.devices, id, h.hello.bindCode, d.bindCodeExpiresAt.value);
      }
    }
  }

  /** The device with this id is unbound and shows this code until `expires`. */
  ghost predicate CodeLive(devices: seq<Device>, id: string, code: string, expires: Time) {
    exists i :: 0 <= i < |devices| && ShowsCode(devices[i], id, code, expires)
  }

  predicate ShowsCode(d: Device, id: string, code: string, expires: Time) {
    d.id == id && d.ownerId == "" && d.bindCode == code && d.bindCodeExpiresAt == Some(expires)
  }

  /** The first device matching a code is the only one; the caller's code decides the
      outcome; a successful bind changes that device alone, and its code is then unknown. */
  lemma BindTakesTheDevice(devices: seq<Device>, owner: string, code: string, name: string, now: Time)
    requires DevicesInv(devices)
    requires owner != "" && code != ""
    ensures var b := Bind(devices, owner, code, name, now);
      && (b.Bound? <==> exists id, e :: CodeLive(devices, id, code, e) && now <= e)
      && (b.Refused? <==> exists id, e :: CodeLive(devices, id, code, e) && e < now)
      && (forall j :: 0 <= j < |devices| && devices[j].bindCode == code ==> j == FirstIndex(CodeIs(code), devices))
      && (b.Bound? ==>
            && DevicesInv(b.devices)
            && b.device.ownerId == owner
            && OneChanged(devices, b.devices, FirstIndex(CodeIs(code), devices))
            && b.devices[FirstIndex(CodeIs(code), devices)] == b.device
            && b.device.id == devices[FirstIndex(CodeIs(code), devices)].id
            && Bind(b.devices, owner, code, name, now) == CodeUnknown)
  {
    var i := FirstIndex(CodeIs(code), devices);
    if 0 <= i {
      var d := devices[i];
      assert PairingState(d);
      assert CodeLive(devices, d.id, code, d.bindCodeExpiresAt.value);
      forall id, e | CodeLive(devices, id, code, e)
        ensures e == d.bindCodeExpiresAt.value
      {
        var j :| 0 <= j < |devices| && ShowsCode(devices[j], id, code, e);
        var distinct := Distinct(devices[i], devices[j]);
      }
      forall j | 0 <= j < |devices| && devices[j].bindCode == code
        ensures j == i
      {
        var distinct := Distinct(devices[i], devices[j]);
      }
    }
  }

  /** What taking a device writes: its new owner, the name given or else its id, and the time;
      the code is gone and the rest is kept. */
  predicate TakenOver(before: Device, after: Device, owner: string, name: string, now: Time) {
    && after.ownerId == owner
    && (name != "" ==> after.name == name) && (name == "" ==> after.name == before.id)
    && after.bindCode == "" && after.bindCodeExpiresAt == None && after.boundAt == Some(now)
    && after.id == before.id && after.secretHash == before.secretHash
    && after.lastSeenAt == before.lastSeenAt && after.createdAt == before.createdAt
  }

  lemma BindWrites(devices: seq<Device>, owner: string, code: string, name: string, now: Time) returns (i: nat)
    requires DevicesInv(devices)
    requires owner != ""
    ensures var b := Bind(devices, owner, code, name, now);
      b.Bound? ==>
        && OneChanged(devices, b.devices, i)
        && devices[i].bindCode == code && devices[i].ownerId == ""
        && TakenOver(devices[i], b.devices[i], owner, name, now)
        && b.device == b.devices[i]
  {
    var found := FirstIndex(CodeIs(code), devices);
    i := if 0 <= found then found else 0;
  }

  /** Binding a live code takes exactly the device that shows it. */
  lemma BindLiveCode(devices: seq<Device>, owner: string, id: string, code: string, expires: Time,
                     name: string, now: Time)
    requires DevicesInv(devices)
    requires owner != "" && now <= expires
    requires CodeLive(devices, id, code, expires)
    ensures var b := Bind(devices, owner, code, name, now);
      && b.Bound?
      && b.device.id == id && b.device.ownerId == owner
      && exists i :: OneChanged(devices, b.devices, i) && devices[i].id == id && b.devices[i] == b.device
  {
    BindTakesTheDevice(devices, owner, code, name, now);
    var i := FirstIndex(CodeIs(code), devices);
    var j :| 0 <= j < |devices| && ShowsCode(devices[j], id, code, expires);
    assert PairingState(devices[j]);
    var distinct := Distinct(devices[i], devices[j]);
    assert OneChanged(devices, Bind(devices, owner, code, name, now).devices, i);
  }

  /** The user has a device with this id. */
  ghost predicate BoundTo(devices: seq<Device>, owner: string, id: string) {
    exists i :: 0 <= i < |devices| && devices[i].id == id && devices[i].ownerId == owner
  }

  /** Renaming and deleting succeed exactly for a device of the user's with this id. */
  lemma ManageFindsOwned(devices: seq<Device>, owner: string, id: string, name: string)
    ensures Rename(devices, owner, id, name).Managed? <==> BoundTo(devices, owner, id)
    ensures Delete(devices, owner, id).Managed? <==> BoundTo(devices, owner, id)
  {
    var i := FirstIndex(OwnedAs(owner, id), devices);
    assert 0 <= i ==> devices[i].id == id;
  }

  predicate RenamedTo(before: Device, after: Device, name: string) {
    && after.name == name
    && after.id == before.id && after.ownerId == before.ownerId && after.secretHash == before.secretHash
    && after.bindCode == before.bindCode && after.bindCodeExpiresAt == before.bindCodeExpiresAt
    && after.boundAt == before.boundAt && after.lastSeenAt == before.lastSeenAt && after.createdAt == before.createdAt
  }

  /** Renaming changes the name of that device and nothing else. */
  lemma RenameWrites(devices: seq<Device>, owner: string, id: string, name: string) returns (i: nat)
    ensures var r := Rename(devices, owner, id, name);
      r.Managed? ==>
        && OneChanged(devices, r.devices, i) && devices[i].id == id && devices[i].ownerId == owner
        && r.device == r.devices[i] && RenamedTo(devices[i], r.devices[i], name)
  {
    var found := FirstIndex(OwnedAs(owner, id), devices);
    i := if 0 <= found then found else 0;
  }

  lemma RenameKeepsTable(devices: seq<Device>, owner: string, id: string, name: string)
    requires DevicesInv(devices)
    ensures var r := Rename(devices, owner, id, name);
      r.Managed? ==>
        && DevicesInv(r.devices)
        && r.device.id == id && r.device.ownerId == owner && r.device.name == name
        && OneChanged(devices, r.devices, FirstIndex(OwnedAs(owner, id), devices))
        && r.devices[FirstIndex(OwnedAs(owner, id), devices)] == r.device
  {
    var i := FirstIndex(OwnedAs(owner, id), devices);
    if 0 <= i {
      var after := Rename(devices, owner, id, name).devices;
      forall j, k | 0 <= j < |after| && 0 <= k < |after| && j != k
        ensures Distinct(after[j], after[k])
      {
        assert Distinct(devices[j], devices[k]);
      }
    }
  }

  lemma DeleteKeepsTable(devices: seq<Device>, owner: string, id: string)
    requires DevicesInv(devices)
    ensures var r := Delete(devices, owner, id);
      r.Managed? ==> DevicesInv(r.devices) && forall d :: d in r.devices <==> d in devices && d.id != id
  {
    var i := FirstIndex(OwnedAs(owner, id), devices);
    if 0 <= i {
      var r := RemoveAt(devices, i);
      assert forall j :: 0 <= j < |r| ==> r[j] == devices[if j < i then j else j + 1];
      forall d | d in devices && d.id != id
        ensures d in r
      {
        var k :| 0 <= k < |devices| && devices[k] == d;
        assert r[if k < i then k else k - 1] == d;
      }
      OneWithId(devices, i);
    }
  }

  /** A deleted device that says hello again starts over and can be bound by another user. */
  lemma Rebinding(devices: seq<Device>, owner: string, id: string, newOwner: string, secretHash: string,
                  code: string, name: string, now: Time)
    requires DevicesInv(devices) && FreeCode(devices, code) && newOwner != ""
    requires 0 <= FirstIndex(OwnedAs(owner, id), devices)
    ensures var deleted := Delete(devices, owner, id);
      && deleted.Managed?
      && var greeted := Hello(deleted.devices, id, secretHash, code, now);
      && greeted.Greeted?
      && var bound := Bind(greeted.devices, newOwner, code, name, now);
      && bound.Bound?
      && 0 <= FirstIndex(OwnedAs(newOwner, id), bound.devices)
  {
    var rest := Delete(devices, owner, id).devices;
    DeleteKeepsTable(devices, owner, id);
    assert forall k :: 0 <= k < |rest| ==> rest[k] in rest;
    assert FirstIndex(IdIs(id), rest) < 0;
    var shown := rest + [NewDevice(id, secretHash, code, now)];
    forall k | 0 <= k < |rest|
      ensures shown[k].bindCode != code
    {
      assert shown[k] == rest[k] && rest[k] in devices;
    }
    assert shown[|rest|].bindCode == code;
    assert FirstIndex(CodeIs(code), shown) == |rest|;
    var bound := Bind(shown, newOwner, code, name, now).devices;
    assert bound[|rest|].id == id && bound[|rest|].ownerId == newOwner;
  }

  // ---- A live code survives what others do ----

  lemma HelloKeepsLiveCode(devices: seq<Device>, caller: string, secretHash: string, drawn: string, now: Time,
                           id: string, code: string, expires: Time)
    requires DevicesInv(devices)
    requires CodeLive(devices, id, code, expires)
    requires caller == id ==> now <= expires
    ensures var h := Hello(devices, caller, secretHash, drawn, now);
      h.Greeted? ==> CodeLive(h.devices, id, code, expires)
  {
    var j :| 0 <= j < |devices| && ShowsCode(devices[j], id, code, expires);
    assert PairingState(devices[j]);
    var h := Hello(devices, caller, secretHash, drawn, now);
    if h.Greeted? {
      assert ShowsCode(h.devices[j], id, code, expires);
    }
  }

  lemma BindKeepsLiveCode(devices: seq<Device>, owner: string, entered: string, name: string, now: Time,
                          id: string, code: string, expires: Time)
    requires CodeLive(devices, id, code, expires)
    requires entered != code
    ensures var b := Bind(devices, owner, entered, name, now);
      b.Bound? ==> CodeLive(b.devices, id, code, expires)
  {
    var j :| 0 <= j < |devices| && ShowsCode(devices[j], id, code, expires);
    var b := Bind(devices, owner, entered, name, now);
    if b.Bound? {
      assert ShowsCode(b.devices[j], id, code, expires);
    }
  }

  lemma ManageKeepsLiveCode(devices: seq<Device>, owner: string, target: string, name: string,
                            id: string, code: string, expires: Time)
    requires CodeLive(devices, id, code, expires)
    requires owner != ""
    ensures var r := Rename(devices, owner, target, name);
      r.Managed? ==> CodeLive(r.devices, id, code, expires)
    ensures var r := Delete(devices, owner, target);
      r.Managed? ==> CodeLive(r.devices, id, code, expires)
  {
    var j :| 0 <= j < |devices| && ShowsCode(devices[j], id, code, expires);
    var i := FirstIndex(OwnedAs(owner, target), devices);
    if 0 <= i {
      assert ShowsCode(devices[i := devices[i].(name := name)][j], id, code, expires);
      assert ShowsCode(RemoveAt(devices, i)[if j < i then j else j - 1], id, code, expires);
    }
  }

  // ---- How many codes are held ----

  function Unbound(): Device -> bool {
    (d: Device) => d.ownerId == ""
  }

  ghost function HeldCodes(devices: seq<Device>): set<string> {
    set i | 0 <= i < |devices| && IsCode(devices[i].bindCode) :: devices[i].bindCode
  }

  lemma HeldByFirst(devices: seq<Device>)
    requires devices != [] && DevicesInv(devices)
    ensures var first := if IsCode(devices[0].bindCode) then {devices[0].bindCode} else {};
      HeldCodes(devices) == first + HeldCodes(devices[1..]) && first !! HeldCodes(devices[1..])
  {
    var rest := devices[1..];
    forall i | 0 <= i < |rest|
      ensures rest[i] == devices[i + 1] && Distinct(devices[0], rest[i])
    {
    }
    forall c | c in HeldCodes(rest)
      ensures c in HeldCodes(devices)
    {
      var i :| 0 <= i < |rest| && IsCode(rest[i].bindCode) && rest[i].bindCode == c;
      assert devices[i + 1].bindCode == c;
    }
  }

  /** Each unbound device holds one code and no two hold the same. */
  lemma {:induction false} HeldByUnbound(devices: seq<Device>)
    requires DevicesInv(devices)
    ensures |HeldCodes(devices)| == |Filter(Unbound(), devices)|
  {
    if devices == [] {
      assert HeldCodes(devices) == {};
    } else {
      HeldByFirst(devices);
      HeldByUnbound(devices[1..]);
      assert PairingState(devices[0]);
    }
  }

  /** Drawing codes until one is free ends exactly while fewer than a million devices wait
      to be bound, given digits that go through every code. */
  lemma PairingNeverStarves(devices: seq<Device>, source: nat -> Decimal, at: nat)
    requires DevicesInv(devices)
    requires DrawsEveryCode(source, at)
    ensures (exists k: nat :: FreeCode(devices, Draw(source, at, k)))
       <==> |Filter(Unbound(), devices)| < 1_000_000
  {
    HeldByUnbound(devices);
    var held := HeldCodes(devices);
    RejectionEnds(source, at, held);
    if SomeDrawFree(source, at, held) {
      var k: nat :| Draw(source, at, k) !in held;
      assert FreeCode(devices, Draw(source, at, k));
    }
    if k: nat :| FreeCode(devices, Draw(source, at, k)) {
      assert Draw(source, at, k) !in held;
    }
  }
}

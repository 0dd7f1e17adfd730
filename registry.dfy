/**
  The device registry: the ordered lists of lights and shutters, and the
  id-to-position maps that the view model builds once from the static catalog
  and then uses to update one device's state in place.
 */
module Registry {
  import opened Wrappers
  import opened Codec

  /**
    The `Light` and `Shutter` data classes, which have the same fields and
    defaults: an id (the `where` of a frame), a display name, a dimmable flag
    and the current state (`what`).
   */
  datatype Device = Device(id: Int32, name: string, dimmable: bool := false, state: Int32 := 0)

  type Light = Device
  type Shutter = Device

  /** The light catalog of `getLights`. */
  const LightCatalog: seq<Light> := [
    Device(31, "Bureau Centraal", false),
    Device(32, "Bureau Kasten", false),
    Device(35, "Salon", true),
    Device(36, "Eetkamer", true)
  ]

  /** The shutter catalog of `getShutters` (three entries are commented out in the source). */
  const ShutterCatalog: seq<Shutter> := [
    Device(82, "Bureau Zij")
  ]

  /** The ids listed in a device list. */
  function Ids(devices: seq<Device>): set<Int32>
  {
    set i | 0 <= i < |devices| :: devices[i].id
  }

  /**
    The registry invariant for one kind: every map value is a valid position
    holding a device with that id, and every listed id is a key.
   */
  predicate Indexed(devices: seq<Device>, index: map<Int32, nat>)
  {
    (forall id :: id in index ==> index[id] < |devices| && devices[index[id]].id == id) &&
    (forall i :: 0 <= i < |devices| ==> devices[i].id in index)
  }

  /** Two lists hold the same devices in the same order, up to their states. */
  predicate SameDevices(a: seq<Device>, b: seq<Device>)
  {
    |a| == |b| &&
    forall k :: 0 <= k < |a| ==> a[k].id == b[k].id && a[k].name == b[k].name && a[k].dimmable == b[k].dimmable
  }

  /**
    The `forEachIndexed { index, d -> map.put(d.id, index) }` loop of
    `getLights`/`getShutters`, run on a map that may already hold entries:
    every listed id ends up a key mapped to the LAST position that holds it,
    and entries for ids not listed are kept.
   */
  method PutIndices(devices: seq<Device>, m: map<Int32, nat>) returns (r: map<Int32, nat>)
    ensures r.Keys == m.Keys + Ids(devices)
    ensures forall i :: 0 <= i < |devices| ==>
              i <= r[devices[i].id] < |devices| && devices[r[devices[i].id]].id == devices[i].id
    ensures forall id :: id in m && id !in Ids(devices) ==> r[id] == m[id]
  {
    r := m;
    var k := 0;
    while k < |devices|
      invariant 0 <= k <= |devices|
      invariant PutInvariant(devices, m, r, k)
    {
      PutStep(devices, m, r, k);
      r := r[devices[k].id := k];
      k := k + 1;
    }
    assert devices[..k] == devices;
  }

  /** What the `put` loop has established after its first `k` steps. */
  predicate PutInvariant(devices: seq<Device>, m: map<Int32, nat>, r: map<Int32, nat>, k: nat)
    requires k <= |devices|
  {
    r.Keys == m.Keys + Ids(devices[..k]) &&
    (forall i :: 0 <= i < k ==> i <= r[devices[i].id] < k && devices[r[devices[i].id]].id == devices[i].id) &&
    (forall id :: id in m && id !in Ids(devices[..k]) ==> r[id] == m[id])
  }

  /** One `put(devices[k].id, k)` keeps the loop invariant. */
  lemma PutStep(devices: seq<Device>, m: map<Int32, nat>, r: map<Int32, nat>, k: nat)
    requires k < |devices| && PutInvariant(devices, m, r, k)
    ensures PutInvariant(devices, m, r[devices[k].id := k], k + 1)
  {
    IdsSnoc(devices, k);
    var id := devices[k].id;
    var r' := r[id := k];
    forall i | 0 <= i < k + 1
      ensures i <= r'[devices[i].id] < k + 1 && devices[r'[devices[i].id]].id == devices[i].id
    {
      if devices[i].id != id { assert r'[devices[i].id] == r[devices[i].id]; }
    }
  }

  lemma IdsSnoc(devices: seq<Device>, k: nat)
    requires k < |devices|
    ensures Ids(devices[..k + 1]) == Ids(devices[..k]) + {devices[k].id}
  {
    var a, b := devices[..k], devices[..k + 1];
    assert forall i :: 0 <= i < k ==> b[i] == a[i];
    assert b[k] == devices[k];
  }

  /** An index built from an empty map satisfies the registry invariant. */
  lemma FreshIndexIsIndexed(devices: seq<Device>, r: map<Int32, nat>)
    requires r.Keys == Ids(devices)
    requires forall i :: 0 <= i < |devices| ==>
               i <= r[devices[i].id] < |devices| && devices[r[devices[i].id]].id == devices[i].id
    ensures Indexed(devices, r)
  {
    forall id | id in r
      ensures r[id] < |devices| && devices[r[id]].id == id
    {
      var i :| 0 <= i < |devices| && devices[i].id == id;
      assert r[devices[i].id] == r[id];
    }
  }

  /** `lightsMap.get(id)` followed by `lights[itemIndex]`. */
  function Lookup(devices: seq<Device>, index: map<Int32, nat>, id: Int32): (r: Option<Device>)
    requires Indexed(devices, index)
    ensures r.Some? <==> id in index
    ensures r.Some? ==> r.value.id == id && r.value in devices
  {
    if id in index then Some(devices[index[id]]) else None
  }

  /**
    The body of `updateLightState`/`updateShutterState`: an unknown id leaves
    the list alone; otherwise the element at `index[id]` is replaced by its
    `copy(state = newState)`, in place.
   */
  function SetState(devices: seq<Device>, index: map<Int32, nat>, id: Int32, newState: Int32): (r: seq<Device>)
    requires Indexed(devices, index)
    ensures SameDevices(devices, r) && Indexed(r, index)
    ensures forall k :: 0 <= k < |r| ==>
              r[k].state == if id in index && k == index[id] then newState else devices[k].state
  {
    if id in index then
      var k := index[id];
      devices[k := devices[k].(state := newState)]
    else devices
  }

  /** An unknown id is a silent no-op. */
  lemma SetStateUnknown(devices: seq<Device>, index: map<Int32, nat>, id: Int32, newState: Int32)
    requires Indexed(devices, index) && id !in index
    ensures SetState(devices, index, id, newState) == devices
  {
  }

  /**
    Looked up by id after the update, the device `id` has state `newState` and
    its other fields unchanged, and every other id reads as before.
   */
  lemma LookupAfterSetState(devices: seq<Device>, index: map<Int32, nat>, id: Int32, newState: Int32, other: Int32)
    requires Indexed(devices, index)
    ensures Lookup(SetState(devices, index, id, newState), index, other) ==
            if other == id && id in index then Some(Lookup(devices, index, id).value.(state := newState))
            else Lookup(devices, index, other)
  {
    var r := SetState(devices, index, id, newState);
    if other in index && id in index && other != id {
      assert devices[index[other]].id != devices[index[id]].id;
    }
    if other in index {
      assert r[index[other]] == devices[index[other]].(state := r[index[other]].state);
    }
  }

  /** Applying the same update twice is the same as applying it once. */
  lemma SetStateIdempotent(devices: seq<Device>, index: map<Int32, nat>, id: Int32, newState: Int32)
    requires Indexed(devices, index)
    ensures SetState(SetState(devices, index, id, newState), index, id, newState) ==
            SetState(devices, index, id, newState)
  {
  }

  /** The registry as a value: both lists and both maps of the view model. */
  datatype Registry = Registry(lights: seq<Light>, lightsMap: map<Int32, nat>,
                               shutters: seq<Shutter>, shuttersMap: map<Int32, nat>)
  {
    predicate Valid()
    {
      Indexed(lights, lightsMap) && Indexed(shutters, shuttersMap)
    }
  }

  /** Two registries differ at most in device states. */
  predicate SameCatalog(a: Registry, b: Registry)
  {
    a.lightsMap == b.lightsMap && a.shuttersMap == b.shuttersMap &&
    SameDevices(a.lights, b.lights) && SameDevices(a.shutters, b.shutters)
  }
}

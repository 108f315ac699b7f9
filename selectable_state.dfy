/**
 * The selectable-state store: the `id -> selectable` map written on save,
 * the rule for a missing file on load, and the reconciliation of a loaded
 * map onto a later enumeration. File paths, JSON and the file system are
 * not modelled; the persisted file is a value of `StoredState`.
 */
module SelectableState {
  import opened Wrappers
  import opened Devices

  /** The persisted configuration file as load finds it. */
  datatype StoredState =
    | Missing                                  // no file yet (first run)
    | Stored(states: map<string, bool>)        // a readable JSON object
    | Unreadable                               // unreadable or malformed JSON

  datatype PersistenceError = PersistenceError

  /** The map `save_device_selectable_state` serialises: every device's id
      to its flag. Like collecting into a HashMap, a later device with the
      same id overwrites an earlier one. */
  function SaveMap(devices: seq<AudioDevice>): (m: map<string, bool>)
    ensures forall i :: 0 <= i < |devices| ==> devices[i].id in m
  {
    if devices == [] then map[]
    else
      var last := devices[|devices| - 1];
      SaveMap(devices[..|devices| - 1])[last.id := last.selectable]
  }

  /** The value saved for an id is the flag of the last device with that
      id. */
  lemma {:induction false} SaveMapLastWins(devices: seq<AudioDevice>, i: nat)
    requires i < |devices|
    requires forall j :: i < j < |devices| ==> devices[j].id != devices[i].id
    ensures SaveMap(devices)[devices[i].id] == devices[i].selectable
  {
    var n := |devices| - 1;
    if i < n {
      SaveMapLastWins(devices[..n], i);
    }
  }

  /** Every key of the saved map is the id of some device. */
  lemma {:induction false} SaveMapKeys(devices: seq<AudioDevice>, id: string)
    requires id in SaveMap(devices)
    ensures exists i :: 0 <= i < |devices| && devices[i].id == id
  {
    var n := |devices| - 1;
    if devices[n].id != id {
      SaveMapKeys(devices[..n], id);
      var i :| 0 <= i < n && devices[..n][i].id == id;
      assert devices[i].id == id;
    }
  }

  /** With distinct ids every device's own flag is saved. */
  lemma SaveMapDistinct(devices: seq<AudioDevice>)
    requires DistinctIds(devices)
    ensures forall i :: 0 <= i < |devices| ==> SaveMap(devices)[devices[i].id] == devices[i].selectable
  {
    forall i | 0 <= i < |devices|
      ensures SaveMap(devices)[devices[i].id] == devices[i].selectable
    {
      SaveMapLastWins(devices, i);
    }
  }

  /** Saving fully overwrites the file with the current map. */
  function Save(devices: seq<AudioDevice>): (f: StoredState)
    ensures f.Stored?
  {
    Stored(SaveMap(devices))
  }

  /** `load_device_selectable_state`: a missing file is the empty map, a
      readable file its map, anything else an error. */
  function Load(file: StoredState): (r: Result<map<string, bool>, PersistenceError>)
    ensures file.Missing? ==> r == Ok(map[])
    ensures file.Stored? ==> r == Ok(file.states)
    ensures r.Err? <==> file.Unreadable?
  {
    match file
    case Missing => Ok(map[])
    case Stored(states) => Ok(states)
    case Unreadable => Err(PersistenceError)
  }

  /** One device after reconciliation with `saved`: a device whose id is a
      key takes the saved flag; nothing else about it changes. */
  function ApplyOne(d: AudioDevice, saved: map<string, bool>): (r: AudioDevice)
    ensures r.id == d.id && r.friendlyName == d.friendlyName && r.formFactor == d.formFactor
    ensures d.id in saved ==> r.selectable == saved[d.id]
    ensures d.id !in saved ==> r == d
  {
    if d.id in saved then d.(selectable := saved[d.id]) else d
  }

  /** The device list `apply_device_selectable_state` leaves behind: a
      device whose id is a key takes the saved flag; every other field,
      every other device, the length and the order stay as they were. */
  function Applied(devices: seq<AudioDevice>, saved: map<string, bool>): (r: seq<AudioDevice>)
    ensures |r| == |devices|
    ensures forall i :: 0 <= i < |r| ==>
      && r[i].id == devices[i].id
      && r[i].friendlyName == devices[i].friendlyName
      && r[i].formFactor == devices[i].formFactor
      && r[i].selectable == (if devices[i].id in saved then saved[devices[i].id] else devices[i].selectable)
  {
    if devices == [] then []
    else [ApplyOne(devices[0], saved)] + Applied(devices[1..], saved)
  }

  /** `apply_device_selectable_state`, updating the slice in place. */
  method ApplyDeviceSelectableState(devices: array<AudioDevice>, saved: map<string, bool>)
    modifies devices
    ensures devices[..] == Applied(old(devices[..]), saved)
  {
    for i := 0 to devices.Length
      invariant forall k :: 0 <= k < i ==> devices[k] == ApplyOne(old(devices[k]), saved)
      invariant forall k :: i <= k < devices.Length ==> devices[k] == old(devices[k])
    {
      if devices[i].id in saved {
        devices[i] := devices[i].(selectable := saved[devices[i].id]);
      }
    }
  }

  /** Applying the same map twice is applying it once. */
  lemma ApplyIdempotent(devices: seq<AudioDevice>, saved: map<string, bool>)
    ensures Applied(Applied(devices, saved), saved) == Applied(devices, saved)
  {
    var once := Applied(devices, saved);
    var twice := Applied(once, saved);
    assert forall i :: 0 <= i < |twice| ==> twice[i] == once[i];
  }

  /** Keys that match no device change nothing: only the keys that are
      ids of the list matter. */
  lemma ApplyIgnoresUnknownKeys(devices: seq<AudioDevice>, saved: map<string, bool>, stale: map<string, bool>)
    requires forall id :: id in stale ==> forall i :: 0 <= i < |devices| ==> devices[i].id != id
    ensures Applied(devices, saved + stale) == Applied(devices, saved)
  {
    var a := Applied(devices, saved + stale);
    var b := Applied(devices, saved);
    forall i | 0 <= i < |a|
      ensures a[i] == b[i]
    {
      var id := devices[i].id;
      assert id !in stale;
      assert (id in saved + stale) == (id in saved);
      assert a[i].selectable == b[i].selectable;
    }
  }

  /** Nothing saved yet: a later enumeration stays wholly selectable. */
  lemma AbsentFileKeepsAllSelectable(later: seq<AudioDevice>, endpoints: seq<Endpoint>)
    requires FreshlyEnumerated(later, endpoints)
    ensures Load(Missing).Ok?
    ensures Applied(later, Load(Missing).value) == later
    ensures forall i :: 0 <= i < |later| ==> Applied(later, Load(Missing).value)[i].selectable
  {
    var r := Applied(later, map[]);
    assert forall i :: 0 <= i < |r| ==> r[i] == later[i];
  }

  /** Save, load and apply to a later enumeration: every device seen at
      save time gets its flag back, and every new device stays selectable. */
  lemma RestoresSavedFlags(before: seq<AudioDevice>, later: seq<AudioDevice>, endpoints: seq<Endpoint>)
    requires DistinctIds(before)
    requires FreshlyEnumerated(later, endpoints)
    ensures Load(Save(before)).Ok?
    ensures var r := Applied(later, Load(Save(before)).value);
      && (forall j, i :: 0 <= j < |later| && 0 <= i < |before| && later[j].id == before[i].id
            ==> r[j].selectable == before[i].selectable)
      && (forall j :: 0 <= j < |later| && (forall i :: 0 <= i < |before| ==> before[i].id != later[j].id)
            ==> r[j].selectable)
  {
    SaveMapDistinct(before);
    var saved := SaveMap(before);
    forall j | 0 <= j < |later| && (forall i :: 0 <= i < |before| ==> before[i].id != later[j].id)
      ensures later[j].id !in saved
    {
      if later[j].id in saved {
        SaveMapKeys(before, later[j].id);
      }
    }
  }

  /** The round trip of the store: saving a device list with distinct ids
      and applying what loads back to a fresh enumeration of the same
      endpoints reproduces the list exactly. */
  lemma SaveLoadApplyRoundTrip(before: seq<AudioDevice>, later: seq<AudioDevice>, endpoints: seq<Endpoint>)
    requires DistinctIds(before)
    requires |endpoints| == |before| && forall i :: 0 <= i < |before| ==> endpoints[i] == EndpointOf(before[i])
    requires FreshlyEnumerated(later, endpoints)
    ensures Load(Save(before)).Ok?
    ensures Applied(later, Load(Save(before)).value) == before
  {
    SaveMapDistinct(before);
    var r := Applied(later, SaveMap(before));
    forall i | 0 <= i < |r|
      ensures r[i] == before[i]
    {
      assert later[i].id == before[i].id;
    }
  }
}

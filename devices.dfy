/**
 * Audio render endpoints as the tray utility holds them. Devices are made
 * afresh on every enumeration; only `selectable` is carried across runs,
 * through the persisted state.
 */
module Devices {

  /** `AudioDevice`: the OS identifier, the display name, whether the
      device takes part in the rotation, and the endpoint form factor
      (an `EndpointFormFactor` i32 used only to pick an icon, carried here
      as opaque data). */
  datatype AudioDevice = AudioDevice(id: string, friendlyName: string, selectable: bool, formFactor: int)

  /** What enumeration reads from one active render endpoint: its id, its
      friendly-name property and its form-factor property. */
  datatype Endpoint = Endpoint(id: string, friendlyName: string, formFactor: int)

  /** Identifiers are unique within one enumeration snapshot. */
  predicate DistinctIds(devices: seq<AudioDevice>) {
    forall i, j :: 0 <= i < j < |devices| ==> devices[i].id != devices[j].id
  }

  /** `devices` is what enumerating `endpoints` yields: one device per
      endpoint, in order, each taking part in the rotation. */
  predicate FreshlyEnumerated(devices: seq<AudioDevice>, endpoints: seq<Endpoint>) {
    && |devices| == |endpoints|
    && forall i :: 0 <= i < |devices| ==>
         devices[i] == AudioDevice(endpoints[i].id, endpoints[i].friendlyName, true, endpoints[i].formFactor)
  }

  /** The endpoint a device was made from. */
  function EndpointOf(d: AudioDevice): (e: Endpoint)
    ensures e.id == d.id && e.friendlyName == d.friendlyName && e.formFactor == d.formFactor
  {
    Endpoint(d.id, d.friendlyName, d.formFactor)
  }

  /** The loop of `get_available_audio_devices` once the COM queries are
      done: push one device per endpoint, every one selectable. */
  method EnumerateDevices(endpoints: seq<Endpoint>) returns (devices: seq<AudioDevice>)
    ensures FreshlyEnumerated(devices, endpoints)
    ensures forall i :: 0 <= i < |devices| ==> devices[i].selectable
  {
    devices := [];
    for i := 0 to |endpoints|
      invariant FreshlyEnumerated(devices, endpoints[..i])
    {
      var e := endpoints[i];
      devices := devices + [AudioDevice(e.id, e.friendlyName, true, e.formFactor)];
    }
    assert endpoints[..|endpoints|] == endpoints;
  }
}

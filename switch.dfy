/**
 * The tray application's state (`AudioSwitch`): the enumerated devices and
 * the check state of their popup-menu items, with the two user actions on
 * it: a menu click (`menu_selection`) and a left click on the tray icon
 * (`next_device`).
 */
module Switch {
  import opened Wrappers
  import opened Unicode
  import opened Devices
  import opened MenuIdCodec
  import opened SelectableState
  import opened Rotation
  import opened Tooltip

  /** The check-mark bit of a menu item's `fState`. */
  const MFS_CHECKED: bv32 := 0x8
  /** `fState` of an unchecked item. */
  const MFS_UNCHECKED: bv32 := 0x0

  predicate IsChecked(state: bv32) {
    state & MFS_CHECKED != 0
  }

  /** `fState | MFS_CHECKED`: sets the check mark and keeps every other bit. */
  function Check(state: bv32): (r: bv32)
    ensures IsChecked(r)
    ensures r & !MFS_CHECKED == state & !MFS_CHECKED
  {
    state | MFS_CHECKED
  }

  /** `fState & !MFS_CHECKED`: clears the check mark and keeps every other bit. */
  function Uncheck(state: bv32): (r: bv32)
    ensures !IsChecked(r)
    ensures r & !MFS_CHECKED == state & !MFS_CHECKED
  {
    state & !MFS_CHECKED
  }

  /** The state a device's item is created with. */
  function InitialState(d: AudioDevice): (r: bv32)
    ensures IsChecked(r) == d.selectable
  {
    if d.selectable then MFS_CHECKED else MFS_UNCHECKED
  }

  /** The index of the first element whose key is `id`. */
  function FirstKeyed<T>(xs: seq<T>, key: T -> int, id: int): (r: Option<nat>)
    ensures r.Some? ==> r.value < |xs| && key(xs[r.value]) == id
    ensures r.Some? ==> forall j :: 0 <= j < r.value ==> key(xs[j]) != id
    ensures r.None? ==> forall j :: 0 <= j < |xs| ==> key(xs[j]) != id
  {
    if xs == [] then None
    else if key(xs[0]) == id then Some(0)
    else match FirstKeyed(xs[1..], key, id)
      case None => None
      case Some(k) => Some(k + 1)
  }

  /** `iter().find(|device| id == device_id_to_menu_id(&device.id))`: the
      index of the first device whose menu id is `id`. */
  function FirstMenuMatch(devices: seq<AudioDevice>, id: int): (r: Option<nat>)
    ensures r.Some? ==> r.value < |devices| && DeviceIdToMenuId(devices[r.value].id) == id
    ensures r.Some? ==> forall j :: 0 <= j < r.value ==> DeviceIdToMenuId(devices[j].id) != id
    ensures r.None? ==> forall j :: 0 <= j < |devices| ==> DeviceIdToMenuId(devices[j].id) != id
  {
    FirstKeyed(devices, (d: AudioDevice) => DeviceIdToMenuId(d.id), id)
  }

  /** The device list after a click on menu item `id`: the first device
      with that menu id has its `selectable` flag negated. */
  function Toggled(devices: seq<AudioDevice>, id: int): (r: seq<AudioDevice>)
    ensures |r| == |devices|
    ensures forall i :: 0 <= i < |r| ==>
      r[i].id == devices[i].id && r[i].friendlyName == devices[i].friendlyName && r[i].formFactor == devices[i].formFactor
    ensures forall i :: 0 <= i < |r| ==>
      r[i].selectable == (if FirstMenuMatch(devices, id) == Some(i) then !devices[i].selectable else devices[i].selectable)
  {
    match FirstMenuMatch(devices, id)
    case None => devices
    case Some(k) => devices[k := devices[k].(selectable := !devices[k].selectable)]
  }

  /** The menu lookup depends on the devices' ids alone. */
  lemma {:induction false} SameIdsSameMatch(a: seq<AudioDevice>, b: seq<AudioDevice>, id: int)
    requires |a| == |b| && forall i :: 0 <= i < |a| ==> a[i].id == b[i].id
    ensures FirstMenuMatch(a, id) == FirstMenuMatch(b, id)
  {
    if a != [] {
      SameIdsSameMatch(a[1..], b[1..], id);
    }
  }

  /** Toggling leaves every id, hence every menu id, in place. */
  lemma ToggledKeepsMatch(devices: seq<AudioDevice>, id: int, other: int)
    ensures FirstMenuMatch(Toggled(devices, id), other) == FirstMenuMatch(devices, other)
  {
    SameIdsSameMatch(Toggled(devices, id), devices, other);
  }

  /** Clicking the same menu item twice restores the device list. */
  lemma ToggleTwice(devices: seq<AudioDevice>, id: int)
    ensures Toggled(Toggled(devices, id), id) == devices
  {
    ToggledKeepsMatch(devices, id, id);
    var twice := Toggled(Toggled(devices, id), id);
    assert forall i :: 0 <= i < |devices| ==> twice[i] == devices[i];
  }

  /** The item states after the item at `found`, if any, has its check
      mark set to the flag of the device it shows; only that item's check
      bit may change. */
  function MarkedAfter(states: seq<bv32>, found: Option<nat>, devices: seq<AudioDevice>): (r: seq<bv32>)
    requires found.Some? ==> found.value < |states| && found.value < |devices|
    ensures |r| == |states|
    ensures forall i :: 0 <= i < |r| && found != Some(i) ==> r[i] == states[i]
    ensures found.Some? ==> IsChecked(r[found.value]) == devices[found.value].selectable
    ensures found.Some? ==> r[found.value] & !MFS_CHECKED == states[found.value] & !MFS_CHECKED
  {
    match found
    case None => states
    case Some(k) => states[k := if devices[k].selectable then Check(states[k]) else Uncheck(states[k])]
  }

  /** Every device's menu item is checked exactly when it is selectable. */
  predicate InStep(devices: seq<AudioDevice>, states: seq<bv32>) {
    && |states| == |devices|
    && forall i :: 0 <= i < |states| ==> IsChecked(states[i]) == devices[i].selectable
  }

  /** Toggling a device and setting its item's check mark to the new flag
      keeps the menu in step with the devices. */
  lemma ToggleKeepsInStep(devices: seq<AudioDevice>, states: seq<bv32>, id: int, k: nat, state: bv32)
    requires InStep(devices, states)
    requires FirstMenuMatch(devices, id) == Some(k)
    requires IsChecked(state) == !devices[k].selectable
    ensures InStep(Toggled(devices, id), states[k := state])
  {
  }

  /** What `menu_selection` leads to besides its own updates. */
  datatype MenuOutcome =
    | Close                               // PostMessageW(WM_CLOSE): the application exits
    | Unknown                             // no device has this menu id; nothing happens
    | Persisted(saved: map<string, bool>) // save_device_selectable_state writes this map

  /** A device switch issued by `next_device`: the endpoint handed to
      `set_default_endpoint` and the new tooltip buffer. */
  datatype Switched = Switched(deviceId: string, tip: seq<CodeUnit>)

  class AudioSwitch {
    /** `available_devices`, in enumeration order. */
    var availableDevices: seq<AudioDevice>
    /** The `fState` of the device items of the popup menu, item i showing
        device i. */
    var menuStates: seq<bv32>

    /** The popup menu shows the devices' flags. */
    ghost predicate Valid()
      reads this
    {
      InStep(availableDevices, menuStates)
    }

    /** The application state over the devices as enumerated and restored,
        with the popup menu's items created checked for selectable devices. */
    constructor(devices: seq<AudioDevice>)
      ensures availableDevices == devices
      ensures |menuStates| == |devices|
      ensures forall i :: 0 <= i < |devices| ==> menuStates[i] == InitialState(devices[i])
      ensures Valid()
    {
      availableDevices := devices;
      menuStates := seq(|devices|, i requires 0 <= i < |devices| => InitialState(devices[i]));
    }

    /** A click on popup-menu item `id`. The exit item closes the
        application; any other id toggles the first device with that menu
        id, keeps its item's check mark in step and persists the new flags;
        an id no device has changes nothing. */
    method MenuSelection(id: int) returns (outcome: MenuOutcome)
      requires Valid()
      modifies this
      ensures Valid()
      ensures id == POPUP_EXIT_ID ==>
        outcome == Close && availableDevices == old(availableDevices) && menuStates == old(menuStates)
      ensures id != POPUP_EXIT_ID ==> availableDevices == Toggled(old(availableDevices), id)
      ensures id != POPUP_EXIT_ID ==> menuStates == MarkedAfter(old(menuStates), FirstMenuMatch(old(availableDevices), id), availableDevices)
      ensures id != POPUP_EXIT_ID ==>
        outcome == if FirstMenuMatch(old(availableDevices), id).None? then Unknown else Persisted(SaveMap(availableDevices))
    {
      if id == POPUP_EXIT_ID {
        return Close;
      }
      var found := FirstMenuMatch(availableDevices, id);
      if found.None? {
        return Unknown;
      }
      var k := found.value;
      var toggled := Toggled(availableDevices, id);
      var marked := MarkedAfter(menuStates, found, toggled);
      ToggleKeepsInStep(availableDevices, menuStates, id, k, marked[k]);
      assert marked == menuStates[k := marked[k]];
      availableDevices := toggled;
      menuStates := marked;
      outcome := Persisted(SaveMap(availableDevices));
    }

    /** A left click on the tray icon with `currentDefault` the OS's
        default endpoint: the switch `next_device` issues, if any. The
        chosen device's name must fit the tooltip buffer (the `assert!` of
        `string_to_tip`). Nothing of the application state changes. */
    method NextDevice(currentDefault: string) returns (switched: Option<Switched>)
      requires var r := NextIndex(availableDevices, currentDefault);
        r.Some? ==> |Utf16(availableDevices[r.value].friendlyName)| < TIP_LENGTH
      ensures switched.None? <==> forall j :: 0 <= j < |availableDevices| ==> !availableDevices[j].selectable
      ensures switched.Some? ==>
        var j := NextIndex(availableDevices, currentDefault).value;
        && switched.value.deviceId == availableDevices[j].id
        && availableDevices[j].selectable
        && IsTip(switched.value.tip, availableDevices[j].friendlyName)
    {
      var next := NextIndex(availableDevices, currentDefault);
      if next.None? {
        return None;
      }
      var device := availableDevices[next.value];
      var tip := StringToTip(device.friendlyName);
      switched := Some(Switched(device.id, tip));
    }
  }
}

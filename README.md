# Sound switcheroo: the device-rotation core, in Dafny

The model covers the Windows tray utility that cycles the default audio
output device. A left click on the tray icon switches the OS default to
the next *selectable* render endpoint. The popup menu lists every
endpoint with a check mark saying whether it takes part in the rotation.
Those flags are persisted as a JSON `id -> selectable` map and restored
on start.

The Dafny modules follow the pieces of `src/main.rs`:

- `Wrappers`: `Option` and `Result`.
- `Unicode`: the UTF-8 and UTF-16 encoding forms of the Unicode Standard
  (section 3.9, D92 and D91), with decoders and round-trip lemmas. Rust's
  `as_bytes` and `encode_utf16` are these encoders.
- `MenuIdCodec`: `device_id_to_menu_id` as CRC-16/ARC over the UTF-8 bytes
  of the id.
  - The parameters are width 16, polynomial 0x8005 reflected (0xA001),
    init 0, reflected in and out, and xorout 0. The catalogue check value
    is 0xBB3D.
  - `LOWORD`/`HIWORD` are modelled on unbounded integers.
- `Devices`: `AudioDevice`, and the enumeration loop that makes every
  endpoint selectable.
- `SelectableState`: the saved map, the load rule (a missing file gives an
  empty map), and `apply_device_selectable_state` as an in-place loop over
  an array.
- `Rotation`: the `next_device` selection rule, and the cycle it induces
  over the selectable devices.
- `Tooltip`: `string_to_tip`, which fills a 128-unit NUL-terminated UTF-16
  buffer.
- `Switch`: the `AudioSwitch` object. It holds `available_devices` and the
  check states of the menu items. Its methods are `menu_selection` and
  `next_device`.

OS services are inputs and outputs:

- The current default endpoint is a parameter.
- `set_default_endpoint` is the id `NextDevice` returns.
- Enumeration results are a sequence of `Endpoint` values.
- The configuration file is a `StoredState` value.
- A save is the map `MenuSelection` returns.

Where the code's own comments promise more than the code does, the model
follows the code:

- **Reserved menu ids.** The comment on `device_id_to_menu_id`
  (src/main.rs:330) calls the result a unique 16-bit id, and the comment
  on the reserved ids (src/main.rs:326) says a collision with them is
  possible but unlikely. Nothing in the code excludes them.
  `ExitIdReachable` and `CurrentDeviceIdReachable` exhibit endpoint ids
  that hash to 1 (Exit) and to 2 (current-device label). A device whose id
  hashes to 1 can never be toggled: clicking its item exits.
- **Menu-id collisions.** Two ids with the same checksum share a command
  id. The code's `iter_mut().find(...)` toggles the first device in list
  order (`FirstMenuMatch`); the later one cannot be toggled from the menu.
- **Non-selectable current device.** The rotation takes the first
  selectable device whose index is above the current device's index,
  whether or not the current device is selectable, and wraps to the first
  selectable device only when there is none (`NextIndex`).
- **Duplicate ids when saving.** When ids repeat, the saved map holds the
  last device's flag, as collecting into a `HashMap` does
  (`SaveMapLastWins`).

## Model

| member | source | states |
|---|---|---|
| Unicode.Utf8Char | src/main.rs:332-334 | one scalar value encodes to 1–4 bytes; one byte exactly for ASCII; lead bytes in the well-formed ranges; the rest are continuation bytes |
| Unicode.Utf8 | src/main.rs:332-334 | `as_bytes`: between one and four bytes per character |
| Unicode.Utf8CharRoundTrip | src/main.rs:332-334 | decoding the front of any byte string that starts with a character's encoding gives that character and its length back |
| Unicode.Utf8RoundTrip | src/main.rs:332-334 | UTF-8 decoding inverts `as_bytes` for every string |
| Unicode.Utf8Injective | src/main.rs:332-334 | distinct strings have distinct UTF-8 bytes, so the checksum input identifies the device id |
| Unicode.Utf16Char | src/main.rs:84 | a BMP character is one non-surrogate unit equal to itself; any other character is a high surrogate followed by a low one |
| Unicode.Utf16 | src/main.rs:84 | `encode_utf16`: between one and two units per character |
| Unicode.Utf16CharRoundTrip | src/main.rs:84 | decoding the front of any unit string that starts with a character's encoding gives that character and its length back |
| Unicode.Utf16RoundTrip | src/main.rs:84 | UTF-16 decoding inverts `encode_utf16` for every string |
| MenuIdCodec.FeedAppend | src/main.rs:333 | the checksum register over `a + b` is the register over `a` fed on with `b` (the streaming form of the CRC) |
| MenuIdCodec.Crc16Arc | src/main.rs:333 | CRC-16/ARC is the register fed with the bytes in order: the empty input gives the initial value, and any other input is the register over all but its last byte updated with that byte, then xored with the output xor |
| MenuIdCodec.CheckValue | src/main.rs:333 | CRC-16/ARC of "123456789" is the catalogue check value 0xBB3D |
| MenuIdCodec.ClockByte | src/main.rs:333 | eight one-bit shifts with the reflected polynomial, computed by a loop |
| MenuIdCodec.Calculate | src/main.rs:333 | the byte-by-byte loop of `State::<ARC>::calculate` computes exactly CRC-16/ARC of its input |
| MenuIdCodec.AsBytes | src/main.rs:333 | `as_bytes`: exactly the identifier's UTF-8 bytes, byte for byte, as `u8` values |
| MenuIdCodec.DeviceIdToMenuId | src/main.rs:330-334 | the menu id of a device is below 65536 |
| MenuIdCodec.LoWord | src/main.rs:745-748 | `l & 0xffff`: a 16-bit value congruent to `l` modulo 2^16, also for negative `l` |
| MenuIdCodec.HiWord | src/main.rs:750-752 | `(l >> 16) & 0xffff`: a 16-bit value |
| MenuIdCodec.WordSplit | src/main.rs:745-752 | a WPARAM built from a code and an id splits back into that code (high word) and that id (low word) |
| MenuIdCodec.MenuIdSurvivesCommand | src/main.rs:789-791 | for every device id and notification code, `LOWORD` of the WM_COMMAND parameter is the menu id the item was created with |
| MenuIdCodec.ExitIdReachable | src/main.rs:326-334 | the endpoint id "cCi" gets menu id 1, the Exit item's id |
| MenuIdCodec.CurrentDeviceIdReachable | src/main.rs:326-334 | the endpoint id "gGj" gets menu id 2, the current-device label's id |
| Devices.EnumerateDevices | src/main.rs:489-515 | enumeration yields one device per endpoint, in order, with its id, name and form factor, every one selectable |
| SelectableState.SaveMap | src/main.rs:555-558 | every device's id is a key of the saved map |
| SelectableState.SaveMapLastWins | src/main.rs:555-558 | the value saved for an id is the flag of the last device carrying that id |
| SelectableState.SaveMapKeys | src/main.rs:555-558 | every key of the saved map is some device's id |
| SelectableState.SaveMapDistinct | src/main.rs:555-558 | with distinct ids, every device's own flag is saved under its id |
| SelectableState.Save | src/main.rs:551-568 | saving overwrites the stored file with a readable map |
| SelectableState.Load | src/main.rs:571-587 | a missing file loads as the empty map; a readable file loads as its map; only an unreadable file is an error |
| SelectableState.ApplyOne | src/main.rs:595-596 | one device after reconciliation: id, name and form factor unchanged; the saved flag when its id is a key; the device unchanged when it is not |
| SelectableState.Applied | src/main.rs:590-603 | length and order are kept; id, name and form factor are unchanged; a device's flag becomes `saved[id]` exactly when its id is a key, and is unchanged otherwise |
| SelectableState.ApplyDeviceSelectableState | src/main.rs:590-603 | the in-place loop leaves the array equal to `Applied` of its old contents |
| SelectableState.ApplyIdempotent | src/main.rs:590-603 | applying the same map twice equals applying it once |
| SelectableState.ApplyIgnoresUnknownKeys | src/main.rs:590-603 | extra keys that match no device change nothing |
| SelectableState.AbsentFileKeepsAllSelectable | src/main.rs:574-577 | with no configuration file, a fresh enumeration stays unchanged and every device stays selectable |
| SelectableState.RestoresSavedFlags | src/main.rs:667-670 | after save, load and apply, a device in the saved list gets its saved flag, and any other device stays selectable |
| SelectableState.SaveLoadApplyRoundTrip | src/main.rs:667-670 | saving a list with distinct ids, then loading and applying the result to a fresh enumeration of the same endpoints, reproduces the list |
| Rotation.CurrentIndex | src/main.rs:273-277 | `position(...).unwrap_or(0)`: the index of the first device with the current id when some device has it, and 0 when none does |
| Rotation.Position | src/main.rs:273-277 | `position`: the index of the first device with the id, or none when no device has it |
| Rotation.SelectableFrom | src/main.rs:279-284 | the selectable devices' indices, each in range and selectable, in strictly increasing order |
| Rotation.SelectableFromComplete | src/main.rs:279-284 | no selectable device is left out of the filtered list |
| Rotation.SelectableComplete | src/main.rs:279-284 | every selectable device's index is in the list of selectable indices |
| Rotation.FirstAfter | src/main.rs:290-293 | `find(i > current)`: the first listed index above the current one, or none when every index is at most the current one |
| Rotation.NextIndex | src/main.rs:270-298 | no switch exactly when no device is selectable. Otherwise the chosen device is selectable, and either it is the nearest selectable device above the current index, or no selectable device lies above the current index and it is the lowest-index selectable device |
| Rotation.UnknownCurrentActsAsFirst | src/main.rs:273-277 | a current id that no device has counts as index 0: the click behaves as if the first device were current |
| Rotation.CurrentIndexOfOwnId | src/main.rs:273-277 | with distinct ids, a device's own id finds its own index |
| Rotation.SelectableIds | src/main.rs:279-284 | one id per selectable device |
| Rotation.NextOfSelectable | src/main.rs:290-296 | from the p-th selectable device, one click goes to the (p+1)-th, and from the last one to the first |
| Rotation.WalkAroundCycle | src/main.rs:290-296 | when each step moves one place along a cycle, k steps move k places, wrapping round |
| Rotation.SelectableIdsFormCycle | src/main.rs:290-296 | one click moves each selectable device's id to the next one in the cycle |
| Rotation.FullCycleReturns | src/main.rs:290-296 | from a selectable device, as many clicks as there are selectable devices come back to it |
| Rotation.CycleVisitsDistinct | src/main.rs:290-296 | within one cycle, different numbers of clicks leave different devices as the default |
| Rotation.CycleReachesSelectable | src/main.rs:290-296 | every selectable device becomes the default within one cycle of clicks |
| Rotation.RotationVisitsEachSelectableOnce | src/main.rs:270-298 | repeated clicks from a selectable device visit every selectable device exactly once and then return to the start |
| Tooltip.StringToTip | src/main.rs:82-91 | given a UTF-16 encoding shorter than 128 units, the result is 128 units: the first n are the encoding, and every unit from n onward is 0 |
| Tooltip.UntilNul | src/main.rs:89 | a NUL-terminated read: a prefix of the buffer, free of NULs, stopped by a NUL or by the buffer's end |
| Tooltip.UntilFirstNul | src/main.rs:89 | a buffer whose first NUL is at n reads as its first n units |
| Tooltip.Utf16HasNoNul | src/main.rs:84 | a string without NUL characters has no zero unit in its UTF-16 encoding |
| Tooltip.TipReadsBack | src/main.rs:82-91 | for a name without NULs, the buffer read up to its terminator is exactly the UTF-16 encoding, and it decodes back to the name |
| Switch.Check | src/main.rs:250-251 | `fState \| MFS_CHECKED` sets the check bit and keeps every other bit |
| Switch.Uncheck | src/main.rs:252-253 | `fState & !MFS_CHECKED` clears the check bit and keeps every other bit |
| Switch.InitialState | src/main.rs:391-395 | a device's menu item is created checked exactly when the device is selectable |
| Switch.FirstMenuMatch | src/main.rs:231-234 | `find`: the first device whose menu id equals the clicked id, or none when no device has that menu id |
| Switch.Toggled | src/main.rs:230-245 | only the first matching device has its flag negated; ids, names, form factors, length and every other flag are unchanged |
| Switch.SameIdsSameMatch | src/main.rs:231-234 | the lookup depends on the devices' ids alone |
| Switch.ToggledKeepsMatch | src/main.rs:231-245 | after a toggle, every menu id still finds the same device |
| Switch.ToggleTwice | src/main.rs:230-245 | clicking the same menu item twice restores the device list |
| Switch.MarkedAfter | src/main.rs:246-255 | only the toggled device's item changes; its check bit then equals the device's new flag and its other state bits are kept |
| Switch.ToggleKeepsInStep | src/main.rs:244-255 | toggling a device and setting its check mark to the new flag keeps every menu item's check mark equal to its device's flag |
| Switch.AudioSwitch.constructor | src/main.rs:677-683 | the object holds the restored device list; each device's item starts checked exactly when the device is selectable |
| Switch.AudioSwitch.MenuSelection | src/main.rs:216-268 | id 1 closes and changes nothing. Any other id toggles the first matching device, moves its check mark with it and persists the new map. An unmatched id changes nothing. Check marks stay in step with the flags |
| Switch.AudioSwitch.NextDevice | src/main.rs:270-323 | no switch exactly when nothing is selectable. Otherwise it switches to the selectable device `NextIndex` picks, with that device's name in the new tooltip buffer. The device list is untouched |

## Left out

- COM, the undocumented `IPolicyConfig` interface and `set_default_endpoint`
  are not modelled. They are foreign binary interfaces, so the switch is
  represented only by the id `NextDevice` returns. A failed switch is not
  modelled either.
- Endpoint enumeration through COM (`get_available_audio_devices`'s
  queries, `propvariant_to_string`) and its error paths (an unsupported
  form-factor property type) are not modelled. They are OS calls, so their
  results are the `Endpoint` inputs of `EnumerateDevices`.
- `get_current_default_endpoint` is not modelled; it is an OS query. The
  current default is a parameter.
- The configuration path, JSON (de)serialisation and file I/O are not
  modelled. The stored file is a `StoredState` value, and a failed save
  (logged, then ignored) is not modelled.
- The popup menu is reduced to the check states of the device items,
  which are kept in list order.
  - Items are looked up by command id. Every item is inserted at the top,
    so the menu reads, from top to bottom: the title, the current-device
    label (id 2), a separator, the device items in list order, a separator
    and Exit (id 1). The title and the separators carry command id 0.
  - So a device whose menu id is 0 or 2 would have its check mark read
    from and written to one of those items. `MenuSelection` instead
    updates the device's own item state.
- Switch.AudioSwitch.MenuSelection: the Win32 `GetMenuItemInfoW` and
  `SetMenuItemInfoW` calls that can fail are not modelled. A failure there
  returns before the save in the source; the model always completes the
  update.
- Switch.AudioSwitch.NextDevice: the tray icon's image chosen from the
  form factor (`icon_for_form_factor`) and the `Shell_NotifyIconW` call are
  not modelled. Only the tooltip buffer of the new icon data is.
- Window creation, the message loop, `show_popup_menu`, icons, dark-mode
  detection, logging and `Drop` cleanup are not modelled; they are UI and
  resource plumbing with no logic over the device list.
- The save on WM_DESTROY is not modelled separately. It writes
  `SaveMap(available_devices)`, as a toggle does.
- MenuIdCodec.Calculate: the `crc` crate's table-driven implementation is
  not visible. The checksum is computed bitwise from the CRC-16/ARC
  parameters, which is the same function.
- Tooltip.StringToTip: an encoding of 128 units or more panics (`assert!`)
  in the source. This is a precondition in the model, and `NextDevice`
  requires it for the chosen device's name.
- `AudioDevice.formFactor` is carried as an opaque integer.

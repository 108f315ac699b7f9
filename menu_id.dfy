/**
 * The menu-id codec: a device's native identifier is turned into the 16-bit
 * command id of its popup-menu item by the CRC-16/ARC checksum of the
 * identifier's UTF-8 bytes, and the id comes back from Windows in the low
 * word of a WM_COMMAND message's WPARAM.
 *
 * CRC-16/ARC parameters: width 16, polynomial 0x8005, initial value 0x0000,
 * input and output reflected, final xor 0x0000, check value 0xBB3D for the
 * ASCII string "123456789".
 */
module MenuIdCodec {
  import opened Unicode

  /** The polynomial 0x8005 with its 16 bits reversed, as a reflected CRC uses it. */
  const REFLECTED_POLY: bv16 := 0xA001
  const CRC_INIT: bv16 := 0x0000
  const CRC_XOROUT: bv16 := 0x0000

  /** Command ids the popup menu reserves for "Exit" and for the
      non-interactive "current device" label. */
  const POPUP_EXIT_ID: int := 1
  const POPUP_CURRENT_DEVICE_ID: int := 2

  /** One clock of the reflected shift register. */
  function ShiftBit(crc: bv16): bv16 {
    if crc & 1 == 1 then (crc >> 1) ^ REFLECTED_POLY else crc >> 1
  }

  /** `k` clocks of the register. */
  function Clock(crc: bv16, k: nat): bv16
    decreases k
  {
    if k == 0 then crc else Clock(ShiftBit(crc), k - 1)
  }

  /** The per-byte update: xor the byte into the low end of the register
      (input reflected), then clock it eight times. */
  function UpdateByte(crc: bv16, b: bv8): bv16 {
    Clock(crc ^ (b as bv16), 8)
  }

  /** The register after feeding `data`, one byte at a time, into `crc`. */
  function Feed(crc: bv16, data: seq<bv8>): bv16
    decreases |data|
  {
    if data == [] then crc else Feed(UpdateByte(crc, data[0]), data[1..])
  }

  /** CRC-16/ARC of a byte sequence. The register of a reflected CRC already
      holds the reflected output, so only the final xor remains. */
  function Crc16Arc(data: seq<bv8>): (r: bv16)
    ensures data == [] ==> r == CRC_INIT ^ CRC_XOROUT
    ensures data != [] ==> r == UpdateByte(Feed(CRC_INIT, data[..|data| - 1]), data[|data| - 1]) ^ CRC_XOROUT
  {
    if data == [] then CRC_INIT ^ CRC_XOROUT
    else
      var n := |data| - 1;
      FeedAppend(CRC_INIT, data[..n], [data[n]]);
      assert data[..n] + [data[n]] == data;
      Feed(CRC_INIT, data) ^ CRC_XOROUT
  }

  /** Feeding a concatenation is feeding its parts in turn, so the checksum
      can be computed incrementally. */
  lemma {:induction false} FeedAppend(crc: bv16, a: seq<bv8>, b: seq<bv8>)
    decreases |a|
    ensures Feed(crc, a + b) == Feed(Feed(crc, a), b)
  {
    if a == [] {
      assert a + b == b;
    } else {
      assert (a + b)[1..] == a[1..] + b;
      FeedAppend(UpdateByte(crc, a[0]), a[1..], b);
    }
  }

  /** The catalogue check value of CRC-16/ARC: "123456789" gives 0xBB3D. */
  lemma CheckValue()
    ensures Crc16Arc([0x31, 0x32, 0x33, 0x34, 0x35, 0x36, 0x37, 0x38, 0x39]) == 0xBB3D
  {
    assert UpdateByte(0x0000, 0x31) == 0xD4C1;
    assert UpdateByte(0xD4C1, 0x32) == 0x4594;
    assert UpdateByte(0x4594, 0x33) == 0xBA04;
    assert UpdateByte(0xBA04, 0x34) == 0x14BA;
    assert UpdateByte(0x14BA, 0x35) == 0xA455;
    assert UpdateByte(0xA455, 0x36) == 0x29E4;
    assert UpdateByte(0x29E4, 0x37) == 0x9D68;
    assert UpdateByte(0x9D68, 0x38) == 0x3C9D;
    assert UpdateByte(0x3C9D, 0x39) == 0xBB3D;
    assert Feed(0x3C9D, [0x39]) == 0xBB3D;
    assert Feed(0x9D68, [0x38, 0x39]) == 0xBB3D;
    assert Feed(0x29E4, [0x37, 0x38, 0x39]) == 0xBB3D;
    assert Feed(0xA455, [0x36, 0x37, 0x38, 0x39]) == 0xBB3D;
    assert Feed(0x14BA, [0x35, 0x36, 0x37, 0x38, 0x39]) == 0xBB3D;
    assert Feed(0xBA04, [0x34, 0x35, 0x36, 0x37, 0x38, 0x39]) == 0xBB3D;
    assert Feed(0x4594, [0x33, 0x34, 0x35, 0x36, 0x37, 0x38, 0x39]) == 0xBB3D;
    assert Feed(0xD4C1, [0x32, 0x33, 0x34, 0x35, 0x36, 0x37, 0x38, 0x39]) == 0xBB3D;
  }

  /** Clocks the register eight times, a bit per iteration. */
  method ClockByte(reg: bv16) returns (r: bv16)
    ensures r == Clock(reg, 8)
  {
    r := reg;
    for k := 0 to 8
      invariant Clock(r, 8 - k) == Clock(reg, 8)
    {
      r := ShiftBit(r);
    }
  }

  /** The checksum computed a byte per iteration, as `State::<ARC>::calculate`
      does over the identifier's bytes. */
  method Calculate(data: seq<bv8>) returns (crc: bv16)
    ensures crc == Crc16Arc(data)
  {
    crc := CRC_INIT;
    for i := 0 to |data|
      invariant Feed(crc, data[i..]) == Feed(CRC_INIT, data)
    {
      assert data[i..][1..] == data[i + 1..];
      crc := ClockByte(crc ^ (data[i] as bv16));
    }
    assert data[|data|..] == [];
    crc := crc ^ CRC_XOROUT;
  }

  /** The UTF-8 bytes of a Rust string, as `u8` values. */
  function AsBytes(s: string): (r: seq<bv8>)
    ensures |r| == |Utf8(s)|
    ensures forall i {:trigger r[i]} :: 0 <= i < |r| ==> r[i] == Utf8(s)[i] as bv8
  {
    var u := Utf8(s);
    seq(|u|, i requires 0 <= i < |u| => u[i] as bv8)
  }

  /** `device_id_to_menu_id`: the CRC-16/ARC of the identifier's UTF-8 bytes,
      widened to a 32-bit command id. Nothing excludes the reserved ids. */
  function DeviceIdToMenuId(deviceId: string): (r: int)
    ensures 0 <= r < 0x1_0000
  {
    Crc16Arc(AsBytes(deviceId)) as int
  }

  /** `LOWORD` on a pointer-sized integer: its low 16 bits. Dafny's `%` is
      Euclidean, so for negative `l` this is the two's-complement `l & 0xffff`. */
  function LoWord(l: int): (r: int)
    ensures 0 <= r < 0x1_0000
    ensures (l - r) % 0x1_0000 == 0
  {
    l % 0x1_0000
  }

  /** `HIWORD`: bits 16 to 31. The arithmetic right shift of the source is
      Euclidean division by 2^16 (a floor, since the divisor is positive). */
  function HiWord(l: int): (r: int)
    ensures 0 <= r < 0x1_0000
  {
    (l / 0x1_0000) % 0x1_0000
  }

  /** A WPARAM carrying a command id in its low word and a notification
      code in its high word splits back into the two. */
  lemma {:induction false} WordSplit(code: int, id: int)
    requires 0 <= id < 0x1_0000 && 0 <= code < 0x1_0000
    ensures LoWord(code * 0x1_0000 + id) == id
    ensures HiWord(code * 0x1_0000 + id) == code
  {
    var l := code * 0x1_0000 + id;
    assert l / 0x1_0000 == code;
  }

  /** Every menu id fits in the low word, so it survives the WM_COMMAND
      round trip: the id handed to the menu handler is the one the menu
      item was created with. */
  lemma MenuIdSurvivesCommand(deviceId: string, code: int)
    requires 0 <= code < 0x1_0000
    ensures LoWord(code * 0x1_0000 + DeviceIdToMenuId(deviceId)) == DeviceIdToMenuId(deviceId)
    ensures LoWord(DeviceIdToMenuId(deviceId)) == DeviceIdToMenuId(deviceId)
  {
    WordSplit(code, DeviceIdToMenuId(deviceId));
    WordSplit(0, DeviceIdToMenuId(deviceId));
  }

  /** Nothing keeps device menu ids off the reserved ids: an endpoint id
      "cCi" gets the exit item's id. */
  lemma ExitIdReachable()
    ensures DeviceIdToMenuId("cCi") == POPUP_EXIT_ID
  {
    assert Utf8("cCi") == [0x63, 0x43, 0x69];
    assert AsBytes("cCi") == [0x63, 0x43, 0x69];
    assert UpdateByte(0x0000, 0x63) == 0x2940;
    assert UpdateByte(0x2940, 0x43) == 0x0169;
    assert UpdateByte(0x0169, 0x69) == 0x0001;
    assert Feed(0x0169, [0x69]) == 0x0001;
    assert Feed(0x2940, [0x43, 0x69]) == 0x0001;
  }

  /** Likewise "gGj" gets the current-device item's id. */
  lemma CurrentDeviceIdReachable()
    ensures DeviceIdToMenuId("gGj") == POPUP_CURRENT_DEVICE_ID
  {
    assert Utf8("gGj") == [0x67, 0x47, 0x6A];
    assert AsBytes("gGj") == [0x67, 0x47, 0x6A];
    assert UpdateByte(0x0000, 0x67) == 0xEA41;
    assert UpdateByte(0xEA41, 0x47) == 0x026A;
    assert UpdateByte(0x026A, 0x6A) == 0x0002;
    assert Feed(0x026A, [0x6A]) == 0x0002;
    assert Feed(0xEA41, [0x47, 0x6A]) == 0x0002;
  }
}

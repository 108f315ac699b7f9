/**
 * The rotation rule of `next_device`: from the OS's current default
 * device, pick the first selectable device further down the enumeration
 * order, wrapping round to the first selectable device.
 */
module Rotation {
  import opened Wrappers
  import opened Devices

  /** `position`: the index of the first device with this id, if any. */
  function Position(devices: seq<AudioDevice>, id: string): (r: Option<nat>)
    ensures r.Some? ==> r.value < |devices| && devices[r.value].id == id
    ensures r.Some? ==> forall j :: 0 <= j < r.value ==> devices[j].id != id
    ensures r.None? ==> forall j :: 0 <= j < |devices| ==> devices[j].id != id
  {
    if devices == [] then None
    else if devices[0].id == id then Some(0)
    else match Position(devices[1..], id)
      case None => None
      case Some(k) => Some(k + 1)
  }

  /** The current device's index; an id that is not in the list counts as
      index 0 (`unwrap_or(0)`). */
  function CurrentIndex(devices: seq<AudioDevice>, currentId: string): (r: nat)
    ensures (forall j :: 0 <= j < |devices| ==> devices[j].id != currentId) ==> r == 0
    ensures (exists j :: 0 <= j < |devices| && devices[j].id == currentId) ==>
      r < |devices| && devices[r].id == currentId && forall j :: 0 <= j < r ==> devices[j].id != currentId
  {
    match Position(devices, currentId)
    case None => 0
    case Some(k) => k
  }

  /** The indices of the selectable devices from `from` on, in increasing
      order (`enumerate().filter(|(_, d)| d.selectable)`). */
  function SelectableFrom(devices: seq<AudioDevice>, from: nat): (r: seq<nat>)
    decreases |devices| - from
    ensures forall k :: 0 <= k < |r| ==> from <= r[k] < |devices| && devices[r[k]].selectable
    ensures forall k, l :: 0 <= k < l < |r| ==> r[k] < r[l]
  {
    if from >= |devices| then []
    else if devices[from].selectable then [from] + SelectableFrom(devices, from + 1)
    else SelectableFrom(devices, from + 1)
  }

  function SelectableIndices(devices: seq<AudioDevice>): seq<nat> {
    SelectableFrom(devices, 0)
  }

  /** No selectable device from `from` on is left out. */
  lemma {:induction false} SelectableFromComplete(devices: seq<AudioDevice>, from: nat, j: nat)
    requires from <= j < |devices| && devices[j].selectable
    ensures j in SelectableFrom(devices, from)
    decreases j - from
  {
    if from < j {
      SelectableFromComplete(devices, from + 1, j);
    }
  }

  /** Every selectable device appears in the selectable list. */
  lemma SelectableComplete(devices: seq<AudioDevice>)
    ensures forall j :: 0 <= j < |devices| && devices[j].selectable ==> j in SelectableIndices(devices)
  {
    forall j | 0 <= j < |devices| && devices[j].selectable
      ensures j in SelectableIndices(devices)
    {
      SelectableFromComplete(devices, 0, j);
    }
  }

  /** `find(|(i, _)| *i > current_index)` over the selectable indices. */
  function FirstAfter(indices: seq<nat>, current: nat): (r: Option<nat>)
    ensures r.Some? ==> r.value in indices && r.value > current
    ensures r.Some? ==> exists p :: 0 <= p < |indices| && indices[p] == r.value &&
                          forall l :: 0 <= l < p ==> indices[l] <= current
    ensures r.None? ==> forall k :: 0 <= k < |indices| ==> indices[k] <= current
  {
    if indices == [] then None
    else if indices[0] > current then Some(indices[0])
    else FirstAfter(indices[1..], current)
  }

  /** The index of the device `next_device` hands to `set_default_endpoint`,
      or None when no device is selectable and nothing is switched. It is
      the selectable device with the smallest index above the current one,
      or else the selectable device with the smallest index. */
  function NextIndex(devices: seq<AudioDevice>, currentId: string): (r: Option<nat>)
    ensures r.None? <==> forall j :: 0 <= j < |devices| ==> !devices[j].selectable
    ensures r.Some? ==> r.value < |devices| && devices[r.value].selectable
    ensures r.Some? && r.value > CurrentIndex(devices, currentId) ==>
      forall j :: CurrentIndex(devices, currentId) < j < r.value ==> !devices[j].selectable
    ensures r.Some? && r.value <= CurrentIndex(devices, currentId) ==>
      forall j :: 0 <= j < |devices| && devices[j].selectable ==> r.value <= j <= CurrentIndex(devices, currentId)
  {
    SelectableComplete(devices);
    var current := CurrentIndex(devices, currentId);
    var selectable := SelectableIndices(devices);
    if selectable == [] then None
    else match FirstAfter(selectable, current)
      case Some(i) => Some(i)
      case None => Some(selectable[0])
  }

  /** The OS default device's id after one left click on the tray icon:
      the device switched to, or the same id when nothing is selectable. */
  function NextId(devices: seq<AudioDevice>, currentId: string): string {
    match NextIndex(devices, currentId)
    case None => currentId
    case Some(j) => devices[j].id
  }

  /** One left click, as a step on default-device ids. */
  function Click(devices: seq<AudioDevice>): string -> string {
    id => NextId(devices, id)
  }

  /** `k` applications of `step`, starting from `x`. */
  function Iterate<T>(step: T -> T, x: T, k: nat): T
    decreases k
  {
    if k == 0 then x else Iterate(step, step(x), k - 1)
  }

  /** The OS default device's id after `clicks` clicks, each switch taking
      effect. */
  function AfterClicks(devices: seq<AudioDevice>, currentId: string, clicks: nat): string {
    Iterate(Click(devices), currentId, clicks)
  }

  /** The ids of the selectable devices, in enumeration order. */
  function SelectableIds(devices: seq<AudioDevice>): (ids: seq<string>)
    ensures |ids| == |SelectableIndices(devices)|
  {
    var sel := SelectableIndices(devices);
    seq(|sel|, q requires 0 <= q < |sel| => devices[sel[q]].id)
  }

  /** With distinct ids, the device at index `i` is the current one. */
  lemma CurrentIndexOfOwnId(devices: seq<AudioDevice>, i: nat)
    requires DistinctIds(devices) && i < |devices|
    ensures CurrentIndex(devices, devices[i].id) == i
  {
    var p := Position(devices, devices[i].id);
    assert p.Some?;
  }

  /** A current default that is not in the list is treated like the first
      device: the click picks what it would pick from device 0. */
  lemma UnknownCurrentActsAsFirst(devices: seq<AudioDevice>, currentId: string)
    requires |devices| > 0
    requires forall j :: 0 <= j < |devices| ==> devices[j].id != currentId
    ensures CurrentIndex(devices, currentId) == 0
    ensures NextIndex(devices, currentId) == NextIndex(devices, devices[0].id)
  {
  }

  /** Every selectable index appears in the selectable list. */
  lemma SelectableRank(devices: seq<AudioDevice>, j: nat) returns (q: nat)
    requires j < |devices| && devices[j].selectable
    ensures q < |SelectableIndices(devices)| && SelectableIndices(devices)[q] == j
  {
    var sel := SelectableIndices(devices);
    SelectableFromComplete(devices, 0, j);
    q :| 0 <= q < |sel| && sel[q] == j;
  }

  /** Position p + 1 of a cycle of length m, wrapping to 0. */
  function Succ(p: nat, m: nat): nat {
    if p + 1 < m then p + 1 else 0
  }

  /** Position p + k of a cycle of length m, for p < m and k <= m. */
  function Around(p: nat, k: nat, m: nat): nat {
    if p + k < m then p + k else p + k - m
  }

  /** One click moves from the p-th selectable device to the next one in
      enumeration order, and from the last back to the first. */
  lemma NextOfSelectable(devices: seq<AudioDevice>, p: nat)
    requires DistinctIds(devices)
    requires p < |SelectableIndices(devices)|
    ensures var sel := SelectableIndices(devices);
      NextIndex(devices, devices[sel[p]].id) == Some(sel[Succ(p, |sel|)])
  {
    var sel := SelectableIndices(devices);
    var m := |sel|;
    var cur := sel[p];
    CurrentIndexOfOwnId(devices, cur);
    var r := NextIndex(devices, devices[cur].id);
    assert r.Some?;
    var q := SelectableRank(devices, r.value);
    SelectableComplete(devices);
    if p + 1 < m {
      assert sel[p + 1] > cur;
      if r.value > cur {
        if q > p + 1 {
          assert false;
        }
      } else {
        assert false;
      }
    } else {
      assert devices[sel[0]].selectable;
      if q > 0 {
        assert false;
      }
    }
  }

  /** Iterating a step that advances every element of a cycle to the next
      one: k <= n steps from the p-th element reach the (p + k)-th, counted
      round the n elements. */
  lemma {:induction false} WalkAroundCycle<T>(step: T -> T, ring: seq<T>, p: nat, k: nat)
    requires forall q :: 0 <= q < |ring| ==> step(ring[q]) == ring[Succ(q, |ring|)]
    requires p < |ring| && k <= |ring|
    ensures Around(p, k, |ring|) < |ring| && Iterate(step, ring[p], k) == ring[Around(p, k, |ring|)]
    decreases k
  {
    if k > 0 {
      WalkAroundCycle(step, ring, Succ(p, |ring|), k - 1);
    }
  }

  /** One click advances the cycle of selectable ids by one. */
  lemma SelectableIdsFormCycle(devices: seq<AudioDevice>)
    requires DistinctIds(devices)
    ensures var ids := SelectableIds(devices);
      forall q :: 0 <= q < |ids| ==> Click(devices)(ids[q]) == ids[Succ(q, |ids|)]
  {
    forall q | 0 <= q < |SelectableIds(devices)|
      ensures Click(devices)(SelectableIds(devices)[q]) == SelectableIds(devices)[Succ(q, |SelectableIds(devices)|)]
    {
      NextOfSelectable(devices, q);
    }
  }

  /** After as many clicks as there are selectable devices, the default
      is back at the selectable device it started from. */
  lemma FullCycleReturns(devices: seq<AudioDevice>, start: nat)
    requires DistinctIds(devices)
    requires start < |devices| && devices[start].selectable
    ensures AfterClicks(devices, devices[start].id, |SelectableIndices(devices)|) == devices[start].id
  {
    var ids := SelectableIds(devices);
    var p := SelectableRank(devices, start);
    assert ids[p] == devices[start].id;
    SelectableIdsFormCycle(devices);
    WalkAroundCycle(Click(devices), ids, p, |ids|);
  }

  /** Within one cycle, different numbers of clicks leave different
      devices as the default. */
  lemma CycleVisitsDistinct(devices: seq<AudioDevice>, start: nat, a: nat, b: nat)
    requires DistinctIds(devices)
    requires start < |devices| && devices[start].selectable
    requires a < b < |SelectableIndices(devices)|
    ensures AfterClicks(devices, devices[start].id, a) != AfterClicks(devices, devices[start].id, b)
  {
    var sel := SelectableIndices(devices);
    var ids := SelectableIds(devices);
    var m := |sel|;
    var p := SelectableRank(devices, start);
    assert ids[p] == devices[start].id;
    SelectableIdsFormCycle(devices);
    WalkAroundCycle(Click(devices), ids, p, a);
    WalkAroundCycle(Click(devices), ids, p, b);
    var x, y := Around(p, a, m), Around(p, b, m);
    assert x != y;
    if x < y {
      assert sel[x] < sel[y];
    } else {
      assert sel[y] < sel[x];
    }
    assert ids[x] == devices[sel[x]].id && ids[y] == devices[sel[y]].id;
  }

  /** Every selectable device becomes the default within one cycle of
      clicks; `k` is the number of clicks it takes. */
  lemma CycleReachesSelectable(devices: seq<AudioDevice>, start: nat, j: nat) returns (k: nat)
    requires DistinctIds(devices)
    requires start < |devices| && devices[start].selectable
    requires j < |devices| && devices[j].selectable
    ensures k < |SelectableIndices(devices)|
    ensures AfterClicks(devices, devices[start].id, k) == devices[j].id
  {
    var ids := SelectableIds(devices);
    var m := |ids|;
    var p := SelectableRank(devices, start);
    var q := SelectableRank(devices, j);
    assert ids[p] == devices[start].id && ids[q] == devices[j].id;
    k := if q >= p then q - p else q + m - p;
    assert Around(p, k, m) == q;
    SelectableIdsFormCycle(devices);
    WalkAroundCycle(Click(devices), ids, p, k);
  }

  /** The cycle property: from any selectable device, repeated clicks visit
      every selectable device exactly once before coming back. */
  lemma RotationVisitsEachSelectableOnce(devices: seq<AudioDevice>, start: nat)
    requires DistinctIds(devices)
    requires start < |devices| && devices[start].selectable
    ensures var m := |SelectableIndices(devices)|;
      && AfterClicks(devices, devices[start].id, m) == devices[start].id
      && (forall a, b :: 0 <= a < b < m ==>
            AfterClicks(devices, devices[start].id, a) != AfterClicks(devices, devices[start].id, b))
      && (forall j :: 0 <= j < |devices| && devices[j].selectable ==>
            exists k :: 0 <= k < m && AfterClicks(devices, devices[start].id, k) == devices[j].id)
  {
    var m := |SelectableIndices(devices)|;
    var id := devices[start].id;
    FullCycleReturns(devices, start);
    forall a, b | 0 <= a < b < m
      ensures AfterClicks(devices, id, a) != AfterClicks(devices, id, b)
    {
      CycleVisitsDistinct(devices, start, a, b);
    }
    forall j | 0 <= j < |devices| && devices[j].selectable
      ensures exists k :: 0 <= k < m && AfterClicks(devices, id, k) == devices[j].id
    {
      var k := CycleReachesSelectable(devices, start, j);
    }
  }
}

/**
 * The gamepad slots of source/input_device.c. A slot knows the fake Wiimote it is assigned to,
 * as an index into the manager's array.
 */
module InputDevices {
  import opened Bytes

  const MAX_INPUT_DEVS := 2
  const RECONNECT_DELAY := 200

  /** device is the gamepad plugged into the slot, if any. */
  datatype Slot = Slot(device: Option<nat>, wiimote: Option<nat>, delay: nat)

  // ---------------------------------------------------------------- the slot table

  predicate Eligible(s: Slot) {
    s.device.Some? && s.wiimote.None? && s.delay == 0
  }

  /** First slot from i on that satisfies one of the lookups. */
  function FindDevice(ss: seq<Slot>, d: nat, i: nat := 0): (k: Option<nat>)
    requires i <= |ss|
    ensures k.Some? ==> i <= k.value < |ss| && ss[k.value].device == Some(d)
    ensures k.None? ==> forall j :: i <= j < |ss| ==> ss[j].device != Some(d)
    decreases |ss| - i
  {
    if i == |ss| then None
    else if ss[i].device == Some(d) then Some(i)
    else FindDevice(ss, d, i + 1)
  }

  function FindUnassigned(ss: seq<Slot>, i: nat := 0): (k: Option<nat>)
    requires i <= |ss|
    ensures k.Some? ==> i <= k.value < |ss| && Eligible(ss[k.value])
    ensures k.None? ==> forall j :: i <= j < |ss| ==> !Eligible(ss[j])
    decreases |ss| - i
  {
    if i == |ss| then None
    else if Eligible(ss[i]) then Some(i)
    else FindUnassigned(ss, i + 1)
  }

  function FindFree(ss: seq<Slot>, i: nat := 0): (k: Option<nat>)
    requires i <= |ss|
    ensures k.Some? ==> i <= k.value < |ss| && ss[k.value].device.None?
    ensures k.None? ==> forall j :: i <= j < |ss| ==> ss[j].device.Some?
    decreases |ss| - i
  {
    if i == |ss| then None
    else if ss[i].device.None? then Some(i)
    else FindFree(ss, i + 1)
  }

  /** A gamepad is plugged in; without a free slot it is ignored. */
  function Added(ss: seq<Slot>, d: nat): (r: seq<Slot>)
    ensures |r| == |ss|
  {
    match FindFree(ss)
    case Some(k) => ss[k := Slot(Some(d), None, 0)]
    case None => ss
  }

  function Assigned(ss: seq<Slot>, k: nat, w: nat): seq<Slot>
    requires k < |ss|
  {
    ss[k := ss[k].(wiimote := Some(w))]
  }

  /** The gamepad is free again, but only for use after the reconnect delay. */
  function Released(ss: seq<Slot>, k: nat): seq<Slot>
    requires k < |ss|
  {
    ss[k := ss[k].(wiimote := None, delay := RECONNECT_DELAY)]
  }

  function TickedSlot(s: Slot): Slot {
    if s.device.Some? && s.wiimote.None? && s.delay > 0 then s.(delay := s.delay - 1) else s
  }

  function Ticked(ss: seq<Slot>): (r: seq<Slot>)
    ensures |r| == |ss|
  {
    seq(|ss|, i requires 0 <= i < |ss| => TickedSlot(ss[i]))
  }

  // ---------------------------------------------------------------- the code

  class Devices {
    const slots: array<Slot>

    constructor ()
      ensures fresh(slots) && slots[..] == Fill(MAX_INPUT_DEVS, Slot(None, None, 0))
    {
      slots := new Slot[MAX_INPUT_DEVS](_ => Slot(None, None, 0));
      new;
      assert slots[..] == Fill(MAX_INPUT_DEVS, Slot(None, None, 0));
    }

    method FromGamepad(d: nat) returns (k: Option<nat>)
      ensures k == FindDevice(slots[..], d)
    {
      var i := 0;
      while i < slots.Length
        invariant 0 <= i <= slots.Length
        invariant FindDevice(slots[..], d) == FindDevice(slots[..], d, i)
      {
        if slots[i].device == Some(d) {
          return Some(i);
        }
        i := i + 1;
      }
      return None;
    }

    method HandleAdded(d: nat)
      modifies slots
      ensures slots[..] == Added(old(slots[..]), d)
    {
      var i := 0;
      while i < slots.Length
        invariant 0 <= i <= slots.Length
        invariant slots[..] == old(slots[..])
        invariant FindFree(slots[..]) == FindFree(slots[..], i)
      {
        if slots[i].device.None? {
          slots[i] := Slot(Some(d), None, 0);
          return;
        }
        i := i + 1;
      }
    }

    method Tick()
      modifies slots
      ensures slots[..] == Ticked(old(slots[..]))
    {
      for i := 0 to slots.Length
        invariant forall k :: 0 <= k < slots.Length ==>
                    slots[k] == if k < i then TickedSlot(old(slots[k])) else old(slots[k])
      {
        if slots[i].device.Some? && slots[i].wiimote.None? && slots[i].delay > 0 {
          slots[i] := slots[i].(delay := slots[i].delay - 1);
        }
      }
      assert slots[..] == Ticked(old(slots[..]));
    }

    method GetUnassigned() returns (k: Option<nat>)
      ensures k == FindUnassigned(slots[..])
    {
      var i := 0;
      while i < slots.Length
        invariant 0 <= i <= slots.Length
        invariant FindUnassigned(slots[..]) == FindUnassigned(slots[..], i)
      {
        if slots[i].device.Some? && slots[i].wiimote.None? && slots[i].delay == 0 {
          return Some(i);
        }
        i := i + 1;
      }
      return None;
    }

    method Assign(k: nat, w: nat)
      requires k < slots.Length
      modifies slots
      ensures slots[..] == Assigned(old(slots[..]), k, w)
    {
      slots[k] := slots[k].(wiimote := Some(w));
    }

    method Release(k: nat)
      requires k < slots.Length
      modifies slots
      ensures slots[..] == Released(old(slots[..]), k)
    {
      slots[k] := slots[k].(wiimote := None, delay := RECONNECT_DELAY);
    }

    method Unplug(k: nat)
      requires k < slots.Length
      modifies slots
      ensures slots[..] == old(slots[..])[k := old(slots[k]).(device := None)]
    {
      slots[k] := slots[k].(device := None);
    }
  }
}

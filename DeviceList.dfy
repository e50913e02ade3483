/** The discovered-device list of the BLE session: the Peripheral record, the
    discovery updater that appends a peripheral only when its id is new, and
    what a sequence of discovery events makes of the list. */
module DeviceList {

  datatype Option<T> = None | Some(value: T)

  /** A discovered BLE device as one discovery event delivers it. */
  datatype Peripheral = Peripheral(id: string, name: Option<string>, rssi: int)

  /** Some entry of `devices` carries `id`. */
  predicate HasId(devices: seq<Peripheral>, id: string) {
    exists i :: 0 <= i < |devices| && devices[i].id == id
  }

  /** No two entries of `devices` carry the same id. */
  predicate IdsDistinct(devices: seq<Peripheral>) {
    forall i, j :: 0 <= i < j < |devices| ==> devices[i].id != devices[j].id
  }

  /** The position of the first entry of `devices` that carries `id`. */
  function FirstIndex(devices: seq<Peripheral>, id: string): (i: nat)
    requires HasId(devices, id)
    ensures i < |devices| && devices[i].id == id
    ensures forall j :: 0 <= j < i ==> devices[j].id != id
  {
    if devices[0].id == id then 0
    else
      assert HasId(devices[1..], id) by {
        var k :| 0 <= k < |devices| && devices[k].id == id;
        assert devices[1..][k - 1].id == id;
      }
      1 + FirstIndex(devices[1..], id)
  }

  /** `devices.find(device => device.id === id)`: the first entry carrying
      `id`, or None where the script gets `undefined`. */
  function Find(devices: seq<Peripheral>, id: string): (r: Option<Peripheral>)
    ensures r.None? <==> !HasId(devices, id)
    ensures r.Some? ==> r == Some(devices[FirstIndex(devices, id)])
  {
    if devices == [] then None
    else if devices[0].id == id then Some(devices[0])
    else
      assert HasId(devices[1..], id) <==> HasId(devices, id) by {
        if HasId(devices, id) {
          var k :| 0 <= k < |devices| && devices[k].id == id;
          assert devices[1..][k - 1].id == id;
        }
        if HasId(devices[1..], id) {
          var k :| 0 <= k < |devices| - 1 && devices[1..][k].id == id;
          assert devices[k + 1].id == id;
        }
      }
      Find(devices[1..], id)
  }

  /** The discovery updater: `p` is appended when no entry carries its id;
      otherwise the list is returned as it was (the first-seen entry stays). */
  function AddIfNew(devices: seq<Peripheral>, p: Peripheral): (r: seq<Peripheral>)
    ensures !HasId(devices, p.id) ==> r == devices + [p]
    ensures HasId(devices, p.id) ==> r == devices
  {
    match Find(devices, p.id)
    case None => devices + [p]
    case Some(_) => devices
  }

  /** The list after a sequence of discovery events, delivered in order,
      each through the updater once. */
  function Replay(devices: seq<Peripheral>, events: seq<Peripheral>): seq<Peripheral>
    decreases |events|
  {
    if events == [] then devices
    else AddIfNew(Replay(devices, events[..|events| - 1]), events[|events| - 1])
  }

  /** One discovery event handed to each of `handlers` registered copies of
      the updater, one after the other. */
  function Deliver(handlers: nat, devices: seq<Peripheral>, p: Peripheral): seq<Peripheral> {
    if handlers == 0 then devices else AddIfNew(Deliver(handlers - 1, devices, p), p)
  }

  lemma HasIdSnoc(devices: seq<Peripheral>, p: Peripheral, id: string)
    ensures HasId(devices + [p], id) <==> HasId(devices, id) || p.id == id
  {
    if HasId(devices + [p], id) {
      var k :| 0 <= k < |devices| + 1 && (devices + [p])[k].id == id;
      if k < |devices| { assert devices[k].id == id; }
    }
    if HasId(devices, id) {
      var k :| 0 <= k < |devices| && devices[k].id == id;
      assert (devices + [p])[k].id == id;
    }
    if p.id == id {
      assert (devices + [p])[|devices|].id == id;
    }
  }

  lemma FirstIndexSnoc(devices: seq<Peripheral>, p: Peripheral, id: string)
    requires HasId(devices, id)
    ensures HasId(devices + [p], id) && FirstIndex(devices + [p], id) == FirstIndex(devices, id)
  {
    HasIdSnoc(devices, p, id);
    var i := FirstIndex(devices, id);
    assert (devices + [p])[i].id == id;
    // no entry before i carries id in the longer list either
    assert forall j :: 0 <= j < i ==> (devices + [p])[j].id != id;
  }

  /** A new id is appended at the end and every earlier entry stays where it
      was; the list gains exactly the id of `p`. */
  lemma AddIfNewExtends(devices: seq<Peripheral>, p: Peripheral)
    ensures var r := AddIfNew(devices, p);
      |devices| <= |r| <= |devices| + 1 && r[..|devices|] == devices
    ensures forall id :: HasId(AddIfNew(devices, p), id) <==> HasId(devices, id) || id == p.id
  {
    forall id ensures HasId(AddIfNew(devices, p), id) <==> HasId(devices, id) || id == p.id {
      HasIdSnoc(devices, p, id);
    }
  }

  /** A corollary of AddIfNew's contract, named for the first-seen rule: for
      a repeated id, a lookup after the update still yields the entry stored
      first, so a later advertisement with another name or rssi is not seen. */
  lemma AddIfNewFirstSeenWins(devices: seq<Peripheral>, p: Peripheral)
    requires HasId(devices, p.id)
    ensures Find(AddIfNew(devices, p), p.id) == Some(devices[FirstIndex(devices, p.id)])
    ensures devices[FirstIndex(devices, p.id)] != p ==> Find(AddIfNew(devices, p), p.id) != Some(p)
  {
  }

  /** The updater never lets two entries share an id. */
  lemma AddIfNewKeepsIdsDistinct(devices: seq<Peripheral>, p: Peripheral)
    requires IdsDistinct(devices)
    ensures IdsDistinct(AddIfNew(devices, p))
  {
  }

  /** Applying the updater twice for the same peripheral gives the list that
      applying it once gives. */
  lemma AddIfNewIdempotent(devices: seq<Peripheral>, p: Peripheral)
    ensures AddIfNew(AddIfNew(devices, p), p) == AddIfNew(devices, p)
  {
    HasIdSnoc(devices, p, p.id);
  }

  /** However many copies of the updater are registered, one discovery event
      changes the list as a single copy would, and not at all when none is. */
  lemma {:induction false} DeliverOnce(handlers: nat, devices: seq<Peripheral>, p: Peripheral)
    ensures Deliver(handlers, devices, p) == if handlers == 0 then devices else AddIfNew(devices, p)
  {
    if handlers > 1 {
      DeliverOnce(handlers - 1, devices, p);
      AddIfNewIdempotent(devices, p);
    }
  }

  /** Earlier entries are never changed by later discovery events. */
  lemma {:induction false} ReplayExtends(devices: seq<Peripheral>, events: seq<Peripheral>)
    ensures var r := Replay(devices, events);
      |devices| <= |r| <= |devices| + |events| && r[..|devices|] == devices
    decreases |events|
  {
    if events != [] {
      var init, last := events[..|events| - 1], events[|events| - 1];
      ReplayExtends(devices, init);
      AddIfNewExtends(Replay(devices, init), last);
      var r0 := Replay(devices, init);
      assert AddIfNew(r0, last)[..|devices|] == r0[..|r0|][..|devices|];
    }
  }

  /** The ids on the list are those it started with and those of the events. */
  lemma {:induction false} ReplayIds(devices: seq<Peripheral>, events: seq<Peripheral>, id: string)
    ensures HasId(Replay(devices, events), id) <==> HasId(devices, id) || HasId(events, id)
    decreases |events|
  {
    if events != [] {
      var init, last := events[..|events| - 1], events[|events| - 1];
      ReplayIds(devices, init, id);
      AddIfNewExtends(Replay(devices, init), last);
      assert events == init + [last];
      HasIdSnoc(init, last, id);
    }
  }

  /** However the discovery events repeat ids, the list never holds two
      entries with the same id. */
  lemma {:induction false} ReplayKeepsIdsDistinct(devices: seq<Peripheral>, events: seq<Peripheral>)
    requires IdsDistinct(devices)
    ensures IdsDistinct(Replay(devices, events))
    decreases |events|
  {
    if events != [] {
      ReplayKeepsIdsDistinct(devices, events[..|events| - 1]);
      AddIfNewKeepsIdsDistinct(Replay(devices, events[..|events| - 1]), events[|events| - 1]);
    }
  }

  /** Every entry a scan added is the first event that carried its id, and
      the entries stand in the order in which their ids were first seen. */
  lemma {:induction false} ReplayFirstSeen(devices: seq<Peripheral>, events: seq<Peripheral>)
    ensures var r := Replay(devices, events);
      forall k :: |devices| <= k < |r| ==>
        !HasId(devices, r[k].id) && HasId(events, r[k].id) && events[FirstIndex(events, r[k].id)] == r[k]
    ensures var r := Replay(devices, events);
      forall k, l :: |devices| <= k < l < |r| ==>
        FirstIndex(events, r[k].id) < FirstIndex(events, r[l].id)
    decreases |events|
  {
    if events != [] {
      var init, last := events[..|events| - 1], events[|events| - 1];
      assert events == init + [last];
      ReplayFirstSeen(devices, init);
      ReplayExtends(devices, init);
      var r0 := Replay(devices, init);
      var r := Replay(devices, events);
      forall k | |devices| <= k < |r0|
        ensures HasId(events, r0[k].id) && FirstIndex(events, r0[k].id) == FirstIndex(init, r0[k].id)
      {
        FirstIndexSnoc(init, last, r0[k].id);
      }
      if HasId(r0, last.id) {
        assert r == r0;
      } else {
        assert r == r0 + [last];
        ReplayIds(devices, init, last.id);
        HasIdSnoc(init, last, last.id);
        var n := FirstIndex(events, last.id);
        assert n == |init|;
        assert r[|r| - 1] == last;
        forall k | |devices| <= k < |r| - 1
          ensures FirstIndex(events, r[k].id) < n
        {
          assert r[k] == r0[k];
        }
      }
    }
  }
}

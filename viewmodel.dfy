/**
  `MyHomeViewModel`: the registry fields it updates in place, the intents the
  presentation layer calls, and the sequential consumer of the response queue.
  Launching a batch on a coroutine is modelled by returning the batches the
  intent hands to `sendMessages`, in order.
 */
module ViewModel {
  import opened Wrappers
  import opened Codec
  import opened Registry
  import opened Pipeline
  import opened Dispatcher

  /** No two entries of a list share an id. */
  predicate DistinctIds(devices: seq<Device>)
  {
    forall i, j :: 0 <= i < j < |devices| ==> devices[i].id != devices[j].id
  }

  class MyHomeViewModel {
    /** `lightsState.value` and `shuttersState.value`. */
    var lights: seq<Light>
    var shutters: seq<Shutter>
    /** The id-to-position maps. */
    var lightsMap: map<Int32, nat>
    var shuttersMap: map<Int32, nat>

    function State(): Registry
      reads this
    {
      Registry(lights, lightsMap, shutters, shuttersMap)
    }

    predicate Valid()
      reads this
    {
      State().Valid()
    }

    /** The `init` block's catalog loading (the coroutines it launches are not modelled). */
    constructor ()
      ensures Valid()
      ensures lights == LightCatalog && shutters == ShutterCatalog
      ensures lightsMap.Keys == Ids(LightCatalog) && shuttersMap.Keys == Ids(ShutterCatalog)
      ensures forall i :: 0 <= i < |lights| ==> lightsMap[lights[i].id] == i
      ensures forall i :: 0 <= i < |shutters| ==> shuttersMap[shutters[i].id] == i
    {
      lights, shutters, lightsMap, shuttersMap := [], [], map[], map[];
      new;
      GetLights();
      GetShutters();
    }

    /** Loads a catalog with distinct ids: each id ends up mapped to its own position. */
    static lemma LoadedIndex(devices: seq<Device>, r: map<Int32, nat>, old_m: map<Int32, nat>)
      requires DistinctIds(devices)
      requires r.Keys == old_m.Keys + Ids(devices)
      requires forall i :: 0 <= i < |devices| ==>
                 i <= r[devices[i].id] < |devices| && devices[r[devices[i].id]].id == devices[i].id
      ensures forall i :: 0 <= i < |devices| ==> r[devices[i].id] == i
      ensures old_m == map[] ==> Indexed(devices, r)
    {
      if old_m == map[] {
        assert r.Keys == Ids(devices);
        FreshIndexIsIndexed(devices, r);
      }
    }

    /** `getLights`: publish the light catalog and `put` each id's position into `lightsMap`. */
    method GetLights()
      modifies this
      ensures lights == LightCatalog
      ensures lightsMap.Keys == old(lightsMap).Keys + Ids(LightCatalog)
      ensures forall i :: 0 <= i < |lights| ==> lightsMap[lights[i].id] == i
      ensures forall id :: id in old(lightsMap) && id !in Ids(LightCatalog) ==> lightsMap[id] == old(lightsMap)[id]
      ensures old(lightsMap) == map[] ==> Indexed(lights, lightsMap)
      ensures shutters == old(shutters) && shuttersMap == old(shuttersMap)
    {
      var catalog := LightCatalog;
      assert DistinctIds(catalog);
      lights := catalog;
      var before := lightsMap;
      lightsMap := PutIndices(catalog, lightsMap);
      LoadedIndex(catalog, lightsMap, before);
    }

    /** `getShutters`: the same for the shutter catalog. */
    method GetShutters()
      modifies this
      ensures shutters == ShutterCatalog
      ensures shuttersMap.Keys == old(shuttersMap).Keys + Ids(ShutterCatalog)
      ensures forall i :: 0 <= i < |shutters| ==> shuttersMap[shutters[i].id] == i
      ensures forall id :: id in old(shuttersMap) && id !in Ids(ShutterCatalog) ==> shuttersMap[id] == old(shuttersMap)[id]
      ensures old(shuttersMap) == map[] ==> Indexed(shutters, shuttersMap)
      ensures lights == old(lights) && lightsMap == old(lightsMap)
    {
      var catalog := ShutterCatalog;
      assert DistinctIds(catalog);
      shutters := catalog;
      var before := shuttersMap;
      shuttersMap := PutIndices(catalog, shuttersMap);
      LoadedIndex(catalog, shuttersMap, before);
    }

    /** `updateLightState`: copy the list, replace one element's state, reassign the list. */
    method UpdateLightState(id: Int32, newState: Int32)
      requires Valid()
      modifies this
      ensures Valid()
      ensures lightsMap == old(lightsMap) && shutters == old(shutters) && shuttersMap == old(shuttersMap)
      ensures lights == SetState(old(lights), old(lightsMap), id, newState)
    {
      if id in lightsMap {
        var itemIndex := lightsMap[id];
        var list := lights;
        var light := list[itemIndex];
        list := list[itemIndex := light.(state := newState)];
        lights := list;
      }
    }

    /** `updateShutterState`. */
    method UpdateShutterState(id: Int32, newState: Int32)
      requires Valid()
      modifies this
      ensures Valid()
      ensures shuttersMap == old(shuttersMap) && lights == old(lights) && lightsMap == old(lightsMap)
      ensures shutters == SetState(old(shutters), old(shuttersMap), id, newState)
    {
      if id in shuttersMap {
        var itemIndex := shuttersMap[id];
        var list := shutters;
        var shutter := list[itemIndex];
        list := list[itemIndex := shutter.(state := newState)];
        shutters := list;
      }
    }

    /**
      `changeLightState`: the same local update as `updateLightState`, and, for a
      registered id only, one batch holding the single command `*1*newState*id##`.
     */
    method ChangeLightState(id: Int32, newState: Int32) returns (batches: seq<seq<string>>)
      requires Valid()
      modifies this
      ensures Valid()
      ensures lightsMap == old(lightsMap) && shutters == old(shutters) && shuttersMap == old(shuttersMap)
      ensures lights == SetState(old(lights), old(lightsMap), id, newState)
      ensures batches == if id in lightsMap then [[BuildCommand(1, newState, id)]] else []
    {
      batches := [];
      if id in lightsMap {
        var itemIndex := lightsMap[id];
        var list := lights;
        var light := list[itemIndex];
        list := list[itemIndex := light.(state := newState)];
        lights := list;
        batches := [[BuildCommand(1, newState, light.id)]];
      }
    }

    /** `changeShutterState`: the same with `who` = 2. */
    method ChangeShutterState(id: Int32, newState: Int32) returns (batches: seq<seq<string>>)
      requires Valid()
      modifies this
      ensures Valid()
      ensures shuttersMap == old(shuttersMap) && lights == old(lights) && lightsMap == old(lightsMap)
      ensures shutters == SetState(old(shutters), old(shuttersMap), id, newState)
      ensures batches == if id in shuttersMap then [[BuildCommand(2, newState, id)]] else []
    {
      batches := [];
      if id in shuttersMap {
        var itemIndex := shuttersMap[id];
        var list := shutters;
        var shutter := list[itemIndex];
        list := list[itemIndex := shutter.(state := newState)];
        shutters := list;
        batches := [[BuildCommand(2, newState, shutter.id)]];
      }
    }

    /** `getLightsStatus`: one status query `*#1*id##` per light, in list order. */
    method GetLightsStatus() returns (batch: seq<string>)
      ensures |batch| == |lights|
      ensures forall i :: 0 <= i < |lights| ==> batch[i] == BuildStatusCommand(1, lights[i].id)
    {
      var list := lights;
      batch := seq(|list|, i requires 0 <= i < |list| => BuildStatusCommand(1, list[i].id));
    }

    /** `getShuttersStatus`: one status query per shutter, in list order, also with `who` = 1. */
    method GetShuttersStatus() returns (batch: seq<string>)
      ensures |batch| == |shutters|
      ensures forall i :: 0 <= i < |shutters| ==> batch[i] == BuildStatusCommand(1, shutters[i].id)
    {
      var list := shutters;
      batch := seq(|list|, i requires 0 <= i < |list| => BuildStatusCommand(1, list[i].id));
    }

    /**
      The body of `parseResponse`'s `forEach` for one segment. `alive` is false
      where a `toInt` throws.
     */
    method HandleMessage(message: string) returns (alive: bool)
      requires Valid()
      modifies this
      ensures Valid()
      ensures Outcome(State(), alive) == ApplySegment(old(State()), message)
    {
      alive := true;
      var m := MatchFrame(message);
      if m.Some? {
        MatchFrameSound(message);
        var g := m.value;
        var who := ToInt(g.who);
        if who.None? {
          alive := false;
          return;
        }
        if who.value == 1 || who.value == 2 {
          var where := ToInt(g.where);
          var what := ToInt(g.what);
          if where.None? || what.None? {
            alive := false;
            return;
          }
          if who.value == 1 {
            UpdateLightState(where.value, what.value);
          } else {
            UpdateShutterState(where.value, what.value);
          }
        }
      }
    }

    /** `parseResponse`: the segments of `response.split("##")`, left to right. */
    method ParseResponse(response: string) returns (alive: bool)
      requires Valid()
      modifies this
      ensures Valid()
      ensures Outcome(State(), alive) == ApplyResponse(old(State()), response)
    {
      var messages := Split(response);
      ghost var start := State();
      alive := true;
      var i := 0;
      while i < |messages|
        invariant 0 <= i <= |messages|
        invariant Valid()
        invariant ApplySegments(State(), messages[i..]) == ApplySegments(start, messages)
      {
        SegmentStep(State(), messages, i);
        alive := HandleMessage(messages[i]);
        if !alive {
          return;
        }
        i := i + 1;
      }
    }

    /**
      `processResponseQueue` over the texts queued so far, in FIFO order. A
      `toInt` that throws ends the consumer, so the later texts are not parsed.
     */
    method ProcessResponseQueue(queue: seq<string>) returns (alive: bool)
      requires Valid()
      modifies this
      ensures Valid()
      ensures Outcome(State(), alive) == ApplyQueue(old(State()), queue)
    {
      ghost var start := State();
      alive := true;
      var i := 0;
      while i < |queue|
        invariant 0 <= i <= |queue|
        invariant Valid()
        invariant ApplyQueue(State(), queue[i..]) == ApplyQueue(start, queue)
      {
        QueueStep(State(), queue, i);
        alive := ParseResponse(queue[i]);
        if !alive {
          return;
        }
        i := i + 1;
      }
    }
  }

  /** Consuming the echo of one non-negative command, in a NUL-padded buffer, routes that command. */
  lemma ConsumeEcho(reg: Registry, c: Command, padding: string)
    requires reg.Valid() && IsNulPadding(padding)
    requires c.who >= 0 && c.what >= 0 && c.where >= 0
    ensures ApplyQueue(reg, [EncodeAll([c]) + padding]) == Outcome(Route(reg, c.who, c.where, c.what), true)
  {
    ApplyQueueSingle(reg, EncodeAll([c]) + padding);
    ParsePaddedFrames(reg, [c], padding);
    assert [c][1..] == [];
  }

  /**
    The queue a one-command batch leaves behind: the NUL-padded acknowledgement
    of the handshake, then the NUL-padded echo of the command, which routes it.
   */
  lemma ConsumeAckAndEcho(reg: Registry, c: Command, ackPadding: string, echoPadding: string)
    requires reg.Valid() && IsNulPadding(ackPadding) && IsNulPadding(echoPadding)
    requires c.who >= 0 && c.what >= 0 && c.where >= 0
    ensures ApplyQueue(reg, [Ack + ackPadding, EncodeAll([c]) + echoPadding]) ==
            Outcome(Route(reg, c.who, c.where, c.what), true)
  {
    AckIgnored(reg, ackPadding);
    QueuePair(reg, Ack + ackPadding, EncodeAll([c]) + echoPadding);
    ConsumeEcho(reg, c, echoPadding);
    ApplyQueueSingle(reg, EncodeAll([c]) + echoPadding);
  }

  /**
    After switching a registered light on and consuming the echo of the same
    command, that light is on, its other fields and every other device are as
    in the catalogs: the echo re-applies the update the intent already made.
   */
  lemma SwitchOnTwice(reg: Registry, id: Int32, newState: Int32)
    requires reg.Valid() && id in reg.lightsMap
    ensures var once := reg.(lights := SetState(reg.lights, reg.lightsMap, id, newState));
      var r := Route(once, 1, id, newState);
      r.lights == once.lights && r.shutters == reg.shutters &&
      Lookup(r.lights, r.lightsMap, id) == Some(Lookup(reg.lights, reg.lightsMap, id).value.(state := newState))
  {
    SetStateIdempotent(reg.lights, reg.lightsMap, id, newState);
    LookupAfterSetState(reg.lights, reg.lightsMap, id, newState, id);
  }

  /** The echo of the switch-on command, and the lengths that fit a read buffer. */
  lemma SwitchOnEcho()
    ensures EncodeAll([Command(1, 1, 31)]) == "*1*1*31##" && |"*1*1*31##"| == 9 && |Ack| == 6
  {
    SwitchOnFrame();
    assert EncodeAll([Command(1, 1, 31)]) == BuildCommand(1, 1, 31) + EncodeAll([]);
  }

  /**
    The end-to-end scenario: switching light 31 on writes exactly the command
    handshake and `*1*1*31##`; the controller acknowledges the handshake and
    echoes the command, each in a 32-byte buffer, and closes. Once the queue is
    consumed, light 31 is on, and every other light and every shutter is as
    loaded from the catalogs.
   */
  method SwitchOnScenario() returns (written: seq<string>, r: Registry, alive: bool)
    ensures written == [CommandHandshake, "*1*1*31##"]
    ensures r.Valid() && alive
    ensures Lookup(r.lights, r.lightsMap, 31) == Some(Device(31, "Bureau Centraal", false, 1))
    ensures |r.lights| == |LightCatalog| && r.lights[1..] == LightCatalog[1..]
    ensures r.shutters == ShutterCatalog
  {
    var vm := new MyHomeViewModel();
    ghost var loaded := vm.State();
    assert LightCatalog[0].id == 31;
    assert Lookup(loaded.lights, loaded.lightsMap, 31) == Some(LightCatalog[0]);
    var batches := vm.ChangeLightState(31, 1);
    ghost var changed := vm.State();
    SwitchOnTwice(loaded, 31, 1);
    SwitchOnFrame();
    var frame := EncodeAll([Command(1, 1, 31)]);
    SwitchOnEcho();
    var ack, echo := Buffer(Ack), Buffer(frame);
    BufferText(Ack);
    BufferText(frame);
    var ackPadding, echoPadding := ack.text[|Ack|..], echo.text[|frame|..];
    var enqueued;
    written, enqueued := SendOne(batches[0][0], ack, echo);
    ConsumeAckAndEcho(changed, Command(1, 1, 31), ackPadding, echoPadding);
    alive := vm.ProcessResponseQueue(enqueued);
    r := vm.State();
  }
}

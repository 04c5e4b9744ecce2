/** The engine's event buffer: one pending event pointer per event type,
    kept in a `std::map` keyed by type, released with `delete` when the
    buffer is cleared. */
module Events {
  import opened Bytes

  const EVENT_TYPE_NULL: u32 := 0x000
  const EVENT_TYPE_KEY_INPUT: u32 := 0x001
  const EVENT_TYPE_MOUSE_MOVE: u32 := 0x002
  const EVENT_TYPE_MOUSE_BUTTON: u32 := 0x003
  const EVENT_TYPE_GAMEPAD_CONNECT: u32 := 0x004
  const EVENT_TYPE_GAMEPAD_UPDATE: u32 := 0x005

  /** An event object; the handler never reads its fields. */
  class Event {
    constructor ()
    {
    }
  }

  /** What `delete p` releases: nothing for a null pointer. */
  function Freed(p: Event?): (r: seq<Event>)
    ensures |r| <= 1 && (r == [] <==> p == null)
  {
    if p == null then [] else [p]
  }

  // ---------------------------------------------------------------------
  // Iteration order of std::map<uint32_t, Event*>

  predicate IsLeastType(t: u32, s: set<u32>) {
    t in s && forall u :: u in s ==> t <= u
  }

  lemma {:induction false} LeastExists(s: set<u32>)
    requires s != {}
    ensures exists t :: IsLeastType(t, s)
    decreases s
  {
    var x :| x in s;
    if s - {x} == {} {
      forall u | u in s
        ensures x <= u
      {
        assert u !in s - {x};
      }
      assert IsLeastType(x, s);
    } else {
      LeastExists(s - {x});
      var y :| IsLeastType(y, s - {x});
      var least := if x <= y then x else y;
      forall u | u in s
        ensures least <= u
      {
        assert u == x || u in s - {x};
      }
      assert IsLeastType(least, s);
    }
  }

  /** The types of `s` in the order a range-for over the map visits them:
      ascending, each once. */
  function TypeOrder(s: set<u32>): (ts: seq<u32>)
    ensures forall i, j :: 0 <= i < j < |ts| ==> ts[i] < ts[j]
    ensures forall t :: t in ts <==> t in s
    decreases s
  {
    if s == {} then []
    else
      LeastExists(s);
      var t :| IsLeastType(t, s);
      [t] + TypeOrder(s - {t})
  }

  /** The pointers `delete` releases, visiting the types `ts` of `m` in
      order. */
  function Released(m: map<u32, Event?>, ts: seq<u32>): seq<Event>
    requires forall i :: 0 <= i < |ts| ==> ts[i] in m
  {
    if ts == [] then [] else Released(m, ts[..|ts| - 1]) + Freed(m[ts[|ts| - 1]])
  }

  lemma ReleasedStep(m: map<u32, Event?>, ts: seq<u32>, i: nat)
    requires forall k :: 0 <= k < |ts| ==> ts[k] in m
    requires i < |ts|
    ensures Released(m, ts[..i + 1]) == Released(m, ts[..i]) + Freed(m[ts[i]])
  {
    assert ts[..i + 1][..i] == ts[..i];
  }

  lemma OrderedTypesStored(m: map<u32, Event?>, ts: seq<u32>)
    requires ts == TypeOrder(m.Keys)
    ensures forall k :: 0 <= k < |ts| ==> ts[k] in m
  {
  }

  /** Only stored pointers are released. */
  lemma {:induction false} ReleasedWereStored(m: map<u32, Event?>, ts: seq<u32>)
    requires forall i :: 0 <= i < |ts| ==> ts[i] in m
    ensures forall i :: 0 <= i < |Released(m, ts)| ==> Released(m, ts)[i] in m.Values
  {
    if ts != [] {
      ReleasedWereStored(m, ts[..|ts| - 1]);
      assert m[ts[|ts| - 1]] in m.Values;
    }
  }

  /** No pointer is stored under two types. */
  predicate DistinctPointers(m: map<u32, Event?>) {
    forall t, u :: t in m && u in m && m[t] != null && m[t] == m[u] ==> t == u
  }

  /** Visiting each type at most once releases a pointer stored under a
      visited type once, and one under an unvisited type not at all. */
  lemma {:induction false} ReleasedCount(m: map<u32, Event?>, ts: seq<u32>, t: u32)
    requires forall i :: 0 <= i < |ts| ==> ts[i] in m
    requires forall i, j :: 0 <= i < j < |ts| ==> ts[i] != ts[j]
    requires DistinctPointers(m) && t in m && m[t] != null
    ensures multiset(Released(m, ts))[m[t]] == if t in ts then 1 else 0
  {
    if ts != [] {
      var init, last := ts[..|ts| - 1], ts[|ts| - 1];
      ReleasedCount(m, init, t);
      assert t in ts <==> t in init || t == last;
      assert t == last ==> t !in init;
      assert multiset(Freed(m[last]))[m[t]] == if t == last then 1 else 0;
    }
  }

  /** Clearing releases every stored pointer exactly once when no pointer
      is stored under two types, and releases nothing else. */
  lemma ClearReleasesOnce(m: map<u32, Event?>)
    ensures var r := Released(m, TypeOrder(m.Keys));
      forall i :: 0 <= i < |r| ==> r[i] in m.Values
    ensures DistinctPointers(m) ==>
      forall t :: t in m && m[t] != null ==> multiset(Released(m, TypeOrder(m.Keys)))[m[t]] == 1
  {
    var ts := TypeOrder(m.Keys);
    ReleasedWereStored(m, ts);
    if DistinctPointers(m) {
      forall t | t in m && m[t] != null
        ensures multiset(Released(m, ts))[m[t]] == 1
      {
        ReleasedCount(m, ts, t);
      }
    }
  }

  // ---------------------------------------------------------------------
  // Successive additions

  /** `m.emplace(t, p)`: no effect when `t` already has an event. */
  function Emplace(m: map<u32, Event?>, t: u32, p: Event?): (r: map<u32, Event?>)
    ensures r.Keys == m.Keys + {t}
    ensures forall u :: u in m ==> r[u] == m[u]
    ensures t !in m ==> r[t] == p
  {
    if t in m then m else m[t := p]
  }

  /** The buffer after adding the `(type, pointer)` pairs `adds` in order. */
  function AfterAdds(m: map<u32, Event?>, adds: seq<(u32, Event?)>): map<u32, Event?> {
    if adds == [] then m else Emplace(AfterAdds(m, adds[..|adds| - 1]), adds[|adds| - 1].0, adds[|adds| - 1].1)
  }

  /** Between clears the first event added for a type is the one kept:
      a type already buffered keeps its event, and otherwise the type holds
      the pointer of its first addition. */
  lemma {:induction false} FirstAddWins(m: map<u32, Event?>, adds: seq<(u32, Event?)>, t: u32)
    ensures t in AfterAdds(m, adds) <==> t in m || exists i :: 0 <= i < |adds| && adds[i].0 == t
    ensures t in m ==> AfterAdds(m, adds)[t] == m[t]
    ensures forall i :: 0 <= i < |adds| && adds[i].0 == t && t !in m && (forall j :: 0 <= j < i ==> adds[j].0 != t) ==>
      AfterAdds(m, adds)[t] == adds[i].1
  {
    if adds != [] {
      var init, last := adds[..|adds| - 1], adds[|adds| - 1];
      FirstAddWins(m, init, t);
      assert forall i :: 0 <= i < |init| ==> init[i] == adds[i];
      if (exists i :: 0 <= i < |adds| && adds[i].0 == t) && !(exists i :: 0 <= i < |init| && init[i].0 == t) {
        assert last.0 == t;
      }
    }
  }

  // ---------------------------------------------------------------------

  /** The handler singleton. `deleted` records, in order, every pointer it
      has passed to `delete`. */
  class EventHandler {
    var buffer: map<u32, Event?>
    ghost var deleted: seq<Event>

    constructor ()
      ensures buffer == map[] && deleted == []
    {
      buffer := map[];
      deleted := [];
    }

    /** The type `EVENT_TYPE_NULL` only draws a warning in the log and is
        stored like any other. */
    method AddEventToBuffer(eventType: u32, p: Event?)
      modifies this
      ensures eventType in buffer
      ensures eventType in old(buffer) ==> buffer == old(buffer)
      ensures eventType !in old(buffer) ==> buffer == old(buffer)[eventType := p]
      ensures deleted == old(deleted)
    {
      if eventType !in buffer {
        buffer := buffer[eventType := p];
      }
    }

    /** Every stored pointer is deleted, in ascending type order, and the
        buffer is emptied. */
    method ClearEventBuffer()
      modifies this
      ensures buffer == map[]
      ensures deleted == old(deleted) + Released(old(buffer), TypeOrder(old(buffer).Keys))
    {
      var order := TypeOrder(buffer.Keys);
      OrderedTypesStored(buffer, order);
      DeleteInOrder(order);
      buffer := map[];
    }

    /** The range-for of `delete`s over the types `order`. */
    method DeleteInOrder(order: seq<u32>)
      requires forall k :: 0 <= k < |order| ==> order[k] in buffer
      modifies this
      ensures buffer == old(buffer)
      ensures deleted == old(deleted) + Released(buffer, order)
    {
      for i := 0 to |order|
        invariant buffer == old(buffer)
        invariant deleted == old(deleted) + Released(buffer, order[..i])
      {
        var p := buffer[order[i]];
        ReleasedStep(buffer, order, i);
        deleted := deleted + Freed(p);
      }
      assert order[..|order|] == order;
    }

    /** The buffer itself, which callers read in `TypeOrder`. */
    function GetEventBuffer(): (m: map<u32, Event?>)
      reads this
      ensures m == buffer
    {
      buffer
    }

    /** The destructor: the same release as `ClearEventBuffer`. */
    method Destroy()
      modifies this
      ensures buffer == map[]
      ensures deleted == old(deleted) + Released(old(buffer), TypeOrder(old(buffer).Keys))
    {
      ClearEventBuffer();
    }
  }
}

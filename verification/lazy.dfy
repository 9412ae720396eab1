/**
 Memoised zero-argument accessors: `functools.lru_cache` on `get_settings`
 and the module-level `_instance: Optional[...] = None` singletons behind
 `get_whisper_service` and `get_bedrock_service`.

 The global slot is an explicit `Option<T>`: `None` until the first call.
 Each call receives the value it would create and returns the value it hands
 out together with the new content of the slot.
 */
module Lazy {
  import opened Wrappers

  datatype Got<T> = Got(value: T, slot: Option<T>)

  /** One call of the accessor: create and remember the value on the first
      call, hand out the remembered one afterwards. */
  function Get<T>(slot: Option<T>, create: T): (r: Got<T>)
    ensures r.slot == Some(r.value)
    ensures slot.Some? ==> r.value == slot.value && r.slot == slot
    ensures slot.None? ==> r.value == create
  {
    match slot
    case Some(v) => Got(v, slot)
    case None => Got(create, Some(create))
  }

  /** The values handed out by a run of calls, the i-th call offered
      `creates[i]` and seeing the slot the previous call left behind. */
  function Calls<T>(slot: Option<T>, creates: seq<T>): (r: seq<T>)
    ensures |r| == |creates|
    decreases |creates|
  {
    if creates == [] then []
    else
      var g := Get(slot, creates[0]);
      [g.value] + Calls(g.slot, creates[1..])
  }

  /** Every call hands out the same value: the one already in the slot, or
      else the one the first call created. */
  lemma {:induction false} SameInstance<T>(slot: Option<T>, creates: seq<T>)
    requires creates != []
    ensures forall i :: 0 <= i < |creates| ==>
      Calls(slot, creates)[i] == (if slot.Some? then slot.value else creates[0])
    decreases |creates|
  {
    var g := Get(slot, creates[0]);
    var rest := creates[1..];
    if rest != [] {
      SameInstance(g.slot, rest);
    }
    forall i | 0 <= i < |creates|
      ensures Calls(slot, creates)[i] == g.value
    {
      if i > 0 {
        assert Calls(slot, creates)[i] == Calls(g.slot, rest)[i - 1];
      }
    }
  }
}

// The sixth level of a first-person target-shooting game: its fixed time
// limit and objective, and its per-frame rule. A target that has been hit
// becomes hittable again 2 seconds after the hit, and the level is over
// once no time is left.

module Level6 {

  /** How long a hit target keeps its "hit" flag, in seconds. */
  const HitTimeout: real := 2.0

  /** The level's time limit, in seconds. */
  const TimeLimit: real := 20.0

  /** The objective text shown to the player. */
  const Objective: string :=
    "Hit as many moving targets as possible while avoiding the obstacles before time runs out."

  /** The part of a game object that the level rule reads and writes. */
  datatype ObjectState = ObjectState(active: bool, target: bool, hit: bool, hitTime: real)

  /** The hit of `s` is more than HitTimeout seconds old at `time`. */
  predicate HitExpired(s: ObjectState, time: real)
  {
    s.hitTime < time - HitTimeout
  }

  /**
   * What one frame at `time` does to one object: an active target whose hit
   * has expired has its hit flag cleared, and nothing else changes.
   */
  function Expire(s: ObjectState, time: real): (r: ObjectState)
    ensures r.active == s.active && r.target == s.target && r.hitTime == s.hitTime
    ensures r.hit <==> s.hit && !(s.active && s.target && HitExpired(s, time))
  {
    if s.active && s.target && s.hit && HitExpired(s, time) then s.(hit := false) else s
  }

  /** One frame at `time` over a list of object states, first to last. */
  function ExpireAll(states: seq<ObjectState>, time: real): (r: seq<ObjectState>)
    ensures |r| == |states|
  {
    if states == [] then [] else [Expire(states[0], time)] + ExpireAll(states[1..], time)
  }

  /** Position `k` of a frame's result is that frame applied to position `k`. */
  lemma {:induction false} ExpireAllAt(states: seq<ObjectState>, time: real, k: nat)
    requires k < |states|
    ensures ExpireAll(states, time)[k] == Expire(states[k], time)
  {
    if k > 0 {
      ExpireAllAt(states[1..], time, k - 1);
    }
  }

  /** Running the rule twice at the same time changes nothing the first run left. */
  lemma ExpireIdempotent(s: ObjectState, time: real)
    ensures Expire(Expire(s, time), time) == Expire(s, time)
  {
  }

  /** A second frame at the same time leaves every object as the first left it. */
  lemma {:induction false} ExpireAllIdempotent(states: seq<ObjectState>, time: real)
    ensures ExpireAll(ExpireAll(states, time), time) == ExpireAll(states, time)
  {
    if states != [] {
      ExpireAllIdempotent(states[1..], time);
      ExpireIdempotent(states[0], time);
      assert ExpireAll(states, time)[1..] == ExpireAll(states[1..], time);
    }
  }

  /**
   * A frame at `early` followed by one at `late >= early` ends where the
   * frame at `late` alone does: whatever expired earlier has expired later.
   */
  lemma {:induction false} ExpireAllLater(states: seq<ObjectState>, early: real, late: real)
    requires early <= late
    ensures ExpireAll(ExpireAll(states, early), late) == ExpireAll(states, late)
  {
    if states != [] {
      ExpireAllLater(states[1..], early, late);
      assert ExpireAll(states, early)[1..] == ExpireAll(states[1..], early);
    }
  }

  /**
   * The timeout is strict: a target hit at `hitTime` is still hit in a frame
   * at exactly `hitTime + HitTimeout`, and is cleared in any later one.
   */
  lemma ExpireBoundary(s: ObjectState, late: real)
    requires s.active && s.target && s.hit
    ensures Expire(s, s.hitTime + HitTimeout).hit
    ensures late > s.hitTime + HitTimeout ==> !Expire(s, late).hit
  {
  }

  /** A game object, shared by handle between the level and its caller. */
  class GameObject {
    var active: bool
    var target: bool
    var hit: bool
    var hitTime: real

    /** The object's fields as a value. */
    function State(): ObjectState
      reads this
    {
      ObjectState(active, target, hit, hitTime)
    }

    /** The setter `Hit(bool)`. */
    method SetHit(value: bool)
      modifies this`hit
      ensures State() == old(State()).(hit := value)
    {
      hit := value;
    }
  }

  /** The fields of every object of `objects`, in list order. */
  ghost function States(objects: seq<GameObject>): (r: seq<ObjectState>)
    reads set o | o in objects
    ensures |r| == |objects|
    ensures forall k :: 0 <= k < |objects| ==> r[k] == objects[k].State()
  {
    if objects == [] then [] else [objects[0].State()] + States(objects[1..])
  }

  class Level6 {
    var timeLimit: real
    var objective: string

    constructor ()
      ensures timeLimit == TimeLimit && objective == Objective
    {
      timeLimit := TimeLimit;
      objective := Objective;
    }

    /**
     * One frame of the level at game time `time`. Clears the hit flag of
     * every active target of `objects` whose hit is more than HitTimeout
     * seconds old, and reports whether the level is over. The same object
     * may occur more than once in `objects`.
     */
    method Update(time: real, elapsedTime: real, timeRemaining: real, objects: seq<GameObject>)
      returns (done: bool)
      modifies objects`hit
      ensures done <==> timeRemaining - elapsedTime <= 0.0
      ensures forall o :: o in objects ==> o.State() == Expire(old(o.State()), time)
      ensures States(objects) == ExpireAll(old(States(objects)), time)
      // the source's promises about each object, spelled out
      ensures forall o :: o in objects && old(o.active && o.target && o.hit) && old(HitExpired(o.State(), time)) ==> !o.hit
      ensures forall o :: o in objects && old(o.active && o.target && o.hit) && !old(HitExpired(o.State(), time)) ==> o.hit
      ensures forall o :: o in objects && o.hit ==> old(o.hit)
      ensures forall o :: o in objects && !old(o.active && o.target) ==> o.State() == old(o.State())
      ensures forall o :: o in objects ==> o.active == old(o.active) && o.target == old(o.target) && o.hitTime == old(o.hitTime)
    {
      ghost var before := States(objects);
      var i := 0;
      while i < |objects|
        invariant 0 <= i <= |objects|
        invariant forall o :: o in objects && o in objects[..i] ==> o.State() == Expire(old(o.State()), time)
        invariant forall o :: o in objects && o !in objects[..i] ==> o.State() == old(o.State())
      {
        var obj := objects[i];
        ExpireIdempotent(old(obj.State()), time);
        if obj.active && obj.target {
          if obj.hit && obj.hitTime < time - HitTimeout {
            obj.SetHit(false);
          }
        }
        assert objects[..i + 1] == objects[..i] + [obj];
        i := i + 1;
      }
      assert objects[..i] == objects;
      forall k | 0 <= k < |objects|
        ensures States(objects)[k] == ExpireAll(before, time)[k]
      {
        ExpireAllAt(before, time, k);
      }
      done := timeRemaining - elapsedTime <= 0.0;
    }
  }
}

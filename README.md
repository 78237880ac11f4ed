# Level 6 of FPSimCX, modelled in Dafny

FPSimCX is a sample first-person target-shooting game. The game driver calls
the current level's `Update` once per frame. It passes the game time, the
elapsed and remaining time, and the list of game objects. The level changes
the objects in place and returns whether it is finished.

This project models the sixth level (`Level6.cpp`):

- The constructor fixes the time limit at 20 seconds and sets the objective text.
- `Update` walks the object list. For each object that is active and a target
  and is hit, it clears the hit flag once `HitTime < time - 2`. This makes the
  target hittable again.
- `Update` reports the level finished exactly when `timeRemaining - elapsedTime <= 0`.

Everything is in `level6.dfy`, module `Level6`:

- `GameObject` is a class with the four fields the level uses: `active`,
  `target`, `hit` and `hitTime`.
- `ObjectState` is the value those four fields form.
- `Expire` is the rule of one frame applied to one object.
- `ExpireAll` applies `Expire` to a list of states.
- `Level6.Update` is the loop. It is proved against `Expire` and `ExpireAll`.

`Update` changes only `hit` fields. Its `modifies objects`hit` clause
enforces this. The same handle may appear in the list twice. Visiting it a
second time changes nothing, because `Expire` is idempotent. The list itself
is passed by value, so its length and order never change.

Times are `real`.

The strict `<` at Level6.cpp:23 means a target hit at time `T` is still hit in
a frame at exactly `T + 2`, and is cleared only in a later frame;
`ExpireBoundary` states this.

## Model

| member | source | states |
|---|---|---|
| `Level6.Expire` | Level6.cpp:21-26 | `active`, `target` and `hitTime` are kept. The hit flag afterwards is true exactly when it was true before and the object is not an active target whose hit is more than 2 seconds old. So the rule never sets `hit`, and it leaves non-targets and inactive objects unchanged. |
| `Level6.ExpireAll` | Level6.cpp:19-28 | One frame over the list keeps the list's length. |
| `Level6.ExpireAllAt` | Level6.cpp:19-28 | Position k of a frame's result is the rule applied to position k of its input, so order is kept and each object is treated on its own. |
| `Level6.ExpireIdempotent` | Level6.cpp:21-26 | Applying the rule twice at the same time gives the same state as applying it once. |
| `Level6.ExpireAllIdempotent` | Level6.cpp:19-28 | A second frame at the same `time` leaves every object as the first frame left it. |
| `Level6.ExpireAllLater` | Level6.cpp:19-28 | A frame at an earlier time followed by one at a later time ends in the same state as the later frame alone. An expired hit stays expired. |
| `Level6.ExpireBoundary` | Level6.cpp:23 | A hit active target stays hit in a frame at exactly `hitTime + 2`. It is cleared in every frame at a later time. |
| `Level6.GameObject.SetHit` | Level6.cpp:25 | The setter `Hit(false)` writes only the hit flag. |
| `Level6.Level6.constructor` | Level6.cpp:4-8 | A new level has time limit 20 and the fixed objective text. |
| `Level6.Level6.Update` | Level6.cpp:12-30 | Returns true exactly when `timeRemaining - elapsedTime <= 0`, whatever the objects and `time`. Every object in the list ends in `Expire` of its old state. The list of states ends as `ExpireAll` of the old list. Only `hit` is written. An expired hit active target is cleared. An unexpired one stays hit. No hit flag is set. Inactive objects and non-targets are unchanged. |

## Left out

- Float32 arithmetic: `time - 2.0f` and `timeRemaining - elapsedTime` are modelled on `real`, with no IEEE rounding.
- The rest of `GameObject` is not modelled: position, mesh, and how objects are created. Only the four fields the level reads or writes are. `GameObject.h` is not part of this model.
- The accessors `Active()`, `Target()`, `Hit()` and `HitTime()` are assumed to read fields with no side effect, and `Hit(false)` is assumed to write only the hit flag. The "only `hit` is written" property rests on this assumption.
- Null handles in the object list are not modelled. `GameObject` is a non-null type here, while Level6.cpp:21 would dereference a `nullptr` entry.
- Level6.cpp defines no `Initialize`, `SaveState` or `LoadState`; the `Level` base class and `PersistentState` are outside this model.
- Levels 1, 2 and 3, including Level 2's hit-in-order rule, are outside this model.
- The game driver, rendering, the HUD, audio, file I/O and asynchronous resource loading are platform plumbing or concurrency. They are not modelled.
- The collision detection that sets `hit` and `hitTime` is outside the level. It is not modelled.

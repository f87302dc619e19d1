# On-call schedule rendering: the merge of a rotation with overrides

This project models `create_schedule` from `render-schedule.py` in Dafny.
The function renders an on-call schedule for a window `[from_time, until]`.
A rotation hands over every `handover_interval_days` days, starting at
`handover_start_at`, and cycles through its `users`. A sorted list of
overrides puts another user on call for `[start_at, end_at)`. The result is
an ordered list of schedule entries `(user, start, end)`, each a half-open
interval.

The model follows the three phases of the source:

- **Locating the rotation cursor.** This sets `start`, the end of the
  handover interval holding it, and that interval's participant.
- **The merge loop.** It first skips overrides that are over, then takes one
  of three cases: split the interval before an override, place the override,
  or place the whole interval. After each emission the cursor advances.
- **Fill and truncation.** Pure rotation entries are placed until the cursor
  passes `until`. The last entry is then clamped to `until`, and dropped if
  the clamp leaves it empty.

Modules:

- `RotationCursor` (`rotation_cursor.dfy`): the rotation and its arithmetic.
  It gives the handover boundary after an instant and the index of the
  participant on call, using floor division as the source's `timedelta`
  division does.
- `EffectiveSchedule` (`effective_schedule.dfy`): the reference definition.
  - `ScheduleFrom` and `Schedule` give the schedule as a recursive function
    over instants.
  - `OnCall` says who is on call at an instant: the first override holding
    it, otherwise the rotation's participant.
  - Lemmas relate the schedule to `OnCall`. They also give where each entry
    comes from, which overrides show, and the order and bounds of the
    entries.
- `RenderSchedule` (`render_schedule.dfy`): `CreateSchedule` and its phases,
  written as the loops of the source. Each is proved against the reference
  definition through the loop invariant `OnTrack`: the entries built so far,
  followed by the reference schedule from the cursor, make up the final
  schedule.
- `ScheduleExamples` (`schedule_examples.dfy`): four concrete windows, each
  proved equal to an explicit list of entries.

Instants are integers counting seconds. The interval is
`intervalDays * 86400` seconds.

Where the schedule starts, as the code has it: the first entry begins at the
later of `from_time` and `handover_start_at`, not at `from_time`. When the
rotation's first handover lies after `from_time`, the window before it is
not covered.

There is also a behaviour of the code that the model reproduces as
written. Suppose the first override still live at `from_time` takes effect
before the schedule's first instant. This happens when it begins before a
`handover_start_at` that lies after `from_time`. That override then matches
neither the split case nor the placement case, so it is never consumed.
Every later override is held back behind it, and the window shows the bare
rotation. `IgnoresOverrides` names this situation:

- `CreateSchedule` proves that the entries agree with `OnCall` whenever it
  does not hold.
- When it does hold, every entry is proved to be a pure rotation piece.
- `OverridesBeforeFirstHandover` and `HiddenOverrideOnCall` show a concrete
  instance.

## Model

| member | source | states |
|---|---|---|
| RenderSchedule.CreateSchedule | render-schedule.py:40-90 | The result is the reference schedule. It tiles `[max(from, handover), until)` with non-empty back-to-back entries, and it is empty exactly when `until <= max(from, handover)`. Every entry lies in that range and is either a piece of one rotation interval with its participant, or exactly a live override clamped to `until`. Outside the hidden-overrides case, every entry names whoever `OnCall` puts on call at each of its instants, and every live override that takes effect before `until` appears. In the hidden-overrides case, every entry is a whole rotation interval (clamped to `until`) with its participant. |
| RenderSchedule.Locate | render-schedule.py:45-52 | The cursor starts at `max(from, handover)`. Its `end` is the handover boundary after that instant, and its `user` is the rotation index of that instant. |
| RenderSchedule.SkipEnded | render-schedule.py:55-57 | The index returned is that of the first override that ends after `from`. |
| RenderSchedule.MergeStep | render-schedule.py:61-73 | Each of the three cases strictly advances the cursor instant and keeps the built entries on track with the reference schedule. The next pending override stays live at `from`. |
| RenderSchedule.Advance | render-schedule.py:74-76 | Starting from the interval located at an earlier instant, the loop stops with `end` at the boundary after `start` and `user` at the rotation index of `start`. |
| RenderSchedule.Fill | render-schedule.py:79-83 | Once no override is pending, whole rotation intervals are placed until the cursor passes `until`, staying on track with the reference schedule. The entries it appends form a rotation run from `start` (`RotationRun`): each is a whole interval with its participant, the first ends at the handover after `start`, and each later one begins where the previous ends, lasts exactly one interval and has the next participant in cyclic order. The cursor stops where the run ends. |
| RenderSchedule.ExtendRun | render-schedule.py:80-83 | Placing the interval that holds the cursor, whole and with its participant, extends a rotation run, and the cursor moves to the next handover. |
| RenderSchedule.TruncateLast | render-schedule.py:86-89 | The last entry's end becomes `min(end, until)`, and the entry is removed when that leaves it empty. Every other entry is unchanged. |
| RenderSchedule.SplitStep | render-schedule.py:64-66 | Case A: emitting the rotation up to an override that takes effect inside the current interval keeps the build on track. |
| RenderSchedule.OverrideStep | render-schedule.py:67-70 | Case B: placing the override whole and consuming it keeps the build on track. The next override is then live at `from`. |
| RenderSchedule.RotationStep | render-schedule.py:71-73 | Case C, and the fill step at lines 80-81: placing the whole interval keeps the build on track when no override takes effect at or inside it. |
| RenderSchedule.Append | render-schedule.py:65-89 | An emission that starts where the build ends keeps it on track. This holds whether the emission ends inside the window or runs past `until` and awaits the final clamp. |
| RotationCursor.Rotation.Interval | render-schedule.py:42 | The handover interval, `handover_interval_days` days in seconds, is at least one day. |
| RotationCursor.Boundary | render-schedule.py:47 | The boundary after `t` closes the interval holding `t` (`b - interval <= t < b`). It lies a whole number of intervals after the first handover. |
| RotationCursor.RotationIndex | render-schedule.py:48 | The participant index is always a valid index into the users (`0 <= i < N`). |
| RotationCursor.FirstInterval | render-schedule.py:50-52 | At the first handover, the interval is `[handover, handover + interval)` and the participant index is 0. |
| RotationCursor.NextInterval | render-schedule.py:74-76 | The interval after the one holding `t` is exactly one interval long, and its participant index is the cyclic successor. The same step happens at lines 81-83. |
| RotationCursor.SameInterval | render-schedule.py:74-76 | Every instant of an interval has that interval's boundary, elapsed count and participant. This is why advancing `end` only past used-up intervals locates the new `start`. |
| RotationCursor.Bracketed | render-schedule.py:47-48 | An instant in `[handover + (m-1)*interval, handover + m*interval)` has elapsed count `m - 1`, boundary `handover + m*interval` and participant index `(m - 1) mod N`. |
| RotationCursor.ModSucc | render-schedule.py:76 | Incrementing the index modulo N is the cyclic successor of the elapsed count modulo N. |
| RotationCursor.DivModUnique | render-schedule.py:47-48 | Floor division and remainder by a positive interval are fixed by any quotient-remainder decomposition. |
| EffectiveSchedule.FirstLive | render-schedule.py:55-57 | The first override from `k` that ends after `from`. All skipped ones end at or before `from`. |
| EffectiveSchedule.ScheduleFrom | render-schedule.py:60-89 | The reference schedule from an instant `t` tiles `[t, until)`. |
| EffectiveSchedule.Schedule | render-schedule.py:40-90 | The reference schedule for the window tiles `[max(from, handover), until)`. |
| EffectiveSchedule.OnCallInOverride | render-schedule.py:67-68 | Inside a well-formed override, that override's user is on call. |
| EffectiveSchedule.OnCallOutsideOverrides | render-schedule.py:64-66 | Outside all overrides, the rotation's participant is on call. |
| EffectiveSchedule.EffectiveStartsGrow | render-schedule.py:61 | Effective starts `max(start_at, from)` do not decrease along the sorted overrides. |
| EffectiveSchedule.ScheduleFromOnCall | render-schedule.py:60-83 | If no pending override takes effect before `t` and the consumed ones are over by `t`, every entry from `t` agrees with `OnCall` at each of its instants. |
| EffectiveSchedule.ScheduleOnCall | render-schedule.py:40-90 | Outside the hidden-overrides case, every entry of the schedule agrees with `OnCall` at every instant it covers. |
| EffectiveSchedule.ScheduleFromRotation | render-schedule.py:79-83 | With no override that can be placed, every entry is a whole rotation interval (clamped to `until`) with its participant. Each entry after the first starts at the previous one's handover, lasts one interval, and has the next participant in cyclic order. |
| EffectiveSchedule.ScheduleRotation | render-schedule.py:60-83 | With no live override, or in the hidden-overrides case, the schedule is the pure rotation as described above. |
| EffectiveSchedule.ScheduleFromProvenance | render-schedule.py:64-73 | Every entry from `t` is either inside one rotation interval with its participant, or exactly a live override as it shows in the window. |
| EffectiveSchedule.ScheduleProvenance | render-schedule.py:55-73 | The same holds for the whole schedule. In particular, an override that is over by `from` never shows. |
| EffectiveSchedule.ScheduleFromShowsOverrides | render-schedule.py:67-68 | Every pending override taking effect before `until` shows as its own entry `(user, max(start_at, from), min(end_at, until))`. |
| EffectiveSchedule.ScheduleShowsOverrides | render-schedule.py:55-70 | Outside the hidden-overrides case, every override live at `from` that takes effect before `until` shows as its own entry. |
| EffectiveSchedule.ContiguousOrdered | render-schedule.py:64-81 | In a run of back-to-back entries, every entry ends no later than any later entry starts. |
| EffectiveSchedule.TilesOrdered | render-schedule.py:60-89 | In a tiling of `[lo, hi)`, every entry lies within the range, and the entries are ordered and disjoint. |
| EffectiveSchedule.ScheduleSummary | render-schedule.py:40-90 | Everything the schedule for a window promises, in one place: it is empty exactly when `until <= max(from, handover)`, every entry lies in that range and is non-empty, every entry is a rotation piece or a live override, and the hidden-overrides split into `OnCall` agreement with every live override shown, or the pure rotation. |
| ScheduleExamples.Weekly | render-schedule.py:41-43 | The example rotation is valid, and its interval is seven days. |
| ScheduleExamples.PlainRotation | render-schedule.py:45-48 | Handover at day 0, weekly, users A, B, C, window from day 9 to day 19, no overrides: the schedule is B on days 9-14, then C on days 14-19. |
| ScheduleExamples.AfterSplit | render-schedule.py:67-73 | From an override's start, the override is placed, and the rotation resumes with C at its end. |
| ScheduleExamples.OverrideSplitsRotation | render-schedule.py:64-73 | An override X on days 11-15 in that window gives B on days 9-11, X on days 11-15, and C on days 15-19. |
| ScheduleExamples.OverrideAtWindowStart | render-schedule.py:61-69 | An override X on days 5-10 gives X on days 9-10, B on days 10-14, and C on days 14-19. |
| ScheduleExamples.OverridesBeforeFirstHandover | render-schedule.py:45-73 | Handover at day 1, weekly, users A and B, window from day 0 to day 16, overrides X on days 0-2 and Y on days 10-12. This is the hidden-overrides case, and the schedule is A on days 1-8, B on days 8-15, and A on days 15-16. |
| ScheduleExamples.HiddenOverrideOnCall | render-schedule.py:67-68 | In that window X is on call at day 1, where the schedule shows A. |

## Left out

- `parse_time` and `ScheduleEntry.to_json` (ISO-8601 text to and from `datetime`) are not modelled. Instants are whole seconds, so timestamps with fractional seconds (which `datetime.fromisoformat` accepts and `datetime` keeps to the microsecond) are not modelled.
- Instants are unbounded integers. The source's `datetime` stops at year 9999: past it, `end += handover_interval` (lines 75 and 82) and the `+ handover_start` at line 47 raise `OverflowError`. That error path is not modelled.
- `load_files`, the JSON decoding and its error fallbacks, `main` (argument parsing and printing) and `solution.py` are not modelled. They are I/O.
- The sort of the overrides by start in `load_files` is taken as a precondition (`WellFormed`: sorted, pairwise disjoint, each non-empty). Behaviour for overlapping or empty overrides is not modelled.
- `Rotation.Valid` requires `handover_interval_days > 0` and a non-empty user list. The merge and fill loops terminate only because of this precondition. What the source does without it depends on the branch at line 45:
  - Zero interval, `handover_start < from_time`: the floor division at lines 47-48 raises `ZeroDivisionError`.
  - Zero interval, otherwise: `end == start` (line 51). If `until < handover_start`, the result is `[]`. Otherwise the advance loop (74-76, `end += 0`) or the fill loop (79-83) never exits.
  - Negative interval: `end < start` after line 47 or 51. If `until` is before that start, both loops are skipped and the result is `[]`. Otherwise the advance loop (74-76) or the fill loop (79-83) never exits.
  - Empty user list, `handover_start < from_time`: the `% len(users)` at line 48 raises `ZeroDivisionError`.
  - Empty user list, otherwise: `users[user]` at line 65, 72 or 80 raises `IndexError` when a rotation entry is emitted, and `% len(users)` at line 76 or 83 raises `ZeroDivisionError` when the cursor advances. If neither is reached, a normal result comes back. For example, a weekly rotation with handover and from at 0, until at 3 days and an override X on [0, 5 days) gives `[X, 0, 3 days)`.
- `handover_interval_days` is a whole number of days here. A fractional day count is not modelled.
- `ScheduleEntry` is modelled as a value (`Entry`). Assigning `res[-1].end` in place is modelled as replacing the last element of the sequence. Aliasing of entry objects does not arise, because nothing else holds them.

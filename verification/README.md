# MIDI-to-guitar onset model

A Dafny model of `mr_copy.py`, a script that reads a multi-track MIDI file
and lists, for every note onset, the strings and frets on a standard-tuned
guitar that can sound that note.

The model has two parts.

- **Timeline reconstruction** (`parse_midi_file`). The tracks are walked one
  after the other, each event by event. Each track has its own tick
  accumulator, starting at 0. One tempo register is shared by all tracks and
  starts at 500000 microseconds per beat. Every `set_tempo` replaces the
  register. Every `note_on` with positive velocity yields an onset record
  `(note, tick, seconds)`. The seconds come from the tick and the register's
  value at that moment. The records are finally sorted stably by tick.
- **Fretboard mapping** (`map_note_to_guitar`). For each string of the tuning
  `[40, 45, 50, 55, 59, 64]`, the fret is `note - open`. The pair
  `(string + 1, fret)` is kept when `0 <= fret <= 9`.

Files:

- `midi.dfy`, module `Midi`: the decoded events (`SetTempo`, `NoteOn`,
  `Other`), tracks, onset records, and the exact real-valued tick-to-second
  conversion.
- `tick_sort.dfy`, module `TickSort`: a stable insertion sort by tick, with
  sortedness, permutation and stability.
- `timeline.dfy`, module `Timeline`: the sequential pass (`Walk`), the
  operation `ParseMidiFile`, and a closed-form reference for every onset.
  In the reference, an onset's tick is the sum of the deltas of its track up
  to and including the note (`TickAt`). Its tempo is the tempo of the last
  `set_tempo` processed before it (`LastTempo` of `ProcessedBefore`). The
  main theorem says the pass produces exactly these onsets: one per note
  start, in processing order (`Collect`, `ParseMidiFileSortsRecords`).
- `fretboard.dfy`, module `Fretboard`: the mapping, parameterised by the
  tuning and the highest fret, and instantiated with the script's constants.

Tempo visibility follows processing order, not musical time. A `set_tempo`
on track 2 at tick 0 does not affect a note of track 1 at tick 100
(`TempoFollowsProcessingOrder`).

Error cases, as mr_copy.py has them:

- mr_copy.py never checks `ticks_per_beat`. A negative value flows through
  the conversion formula. A zero one raises Python's `ZeroDivisionError`
  when the first onset is converted. `ParseMidiFile` therefore returns
  `ZeroDivisionError` exactly when the resolution is 0 and some track holds
  a note start (`ZeroResolutionFails`). Otherwise it returns `Ok` with the
  onsets.
- `map_note_to_guitar` uses the fixed six-string tuning. `MapNote` accepts
  any tuning; an empty one yields no positions.

## Model

| member | source | states |
|---|---|---|
| Midi.TickToSecond | mr_copy.py:21 | the seconds value times 1000000 times the resolution equals ticks times tempo, for any non-zero resolution |
| Midi.TickToSecondMonotone | mr_copy.py:21 | with a fixed non-negative tempo and positive resolution, a later tick never converts to an earlier second (used by SecondsSortedWithoutTempoChanges) |
| TickSort.WithTickMembers | mr_copy.py:24 | the per-tick subsequence holds exactly the records of the input with that tick |
| TickSort.Insert | mr_copy.py:24 | inserting into a tick-sorted list keeps it sorted and adds exactly the new record to its multiset |
| TickSort.SortByTick | mr_copy.py:24 | the result is sorted by tick (non-decreasing) and is a permutation of the input |
| TickSort.InsertStable | mr_copy.py:24 | an inserted record stays ahead of the records with the same tick that followed it |
| TickSort.SortByTickStable | mr_copy.py:24 | for every tick, the records with that tick keep their input order: the sort is stable |
| TickSort.SortPair | mr_copy.py:24 | of two records, the first stays in front unless its tick is strictly larger: equal ticks keep their order |
| TickSort.SortedStableUnique | mr_copy.py:24 | two tick-sorted sequences with the same records in the same order at every tick are equal, so sortedness and stability fix the result |
| Timeline.SourcesFrom | mr_copy.py:14-19 | lists every note_on with positive velocity at or after a cursor, each once, strictly in track-then-event order |
| Timeline.Sources | mr_copy.py:14-19 | a position is listed iff it holds a note_on with positive velocity; positions are in strict processing order, so none repeats |
| Timeline.ParseMidiFile | mr_copy.py:6-24 | fails iff the resolution is 0 and a note start exists; otherwise the onsets are sorted by tick and are a stable permutation of the records collected in processing order |
| Timeline.ParseMidiFileIsStableSort | mr_copy.py:24 | any tick-sorted arrangement of the collected records that keeps equal ticks in collection order is exactly the result |
| Timeline.WalkStep | mr_copy.py:15-22 | from a cursor on an event whose accumulator and tempo match their closed forms, the pass emits exactly the closed-form onsets of all remaining note starts, in order (the case where the cursor is on an event: delta added, set_tempo replaces the register, a note start emits its onset, and the state handed on matches the next cursor) |
| Timeline.WalkFollowsSources | mr_copy.py:11-22 | from any cursor whose accumulator and tempo match their closed forms, the pass emits exactly the closed-form onsets of the remaining note starts, in order |
| Timeline.Walk | mr_copy.py:10-22 | from any cursor, whatever the accumulator and tempo, the pass emits exactly one onset per remaining note_on with positive velocity |
| Timeline.Collect | mr_copy.py:10-22 | the collected records, before sorting, are one per note start in processing order, each with tick = delta sum of its track up to the note and tempo = last set_tempo processed before it |
| Timeline.ParseMidiFileSortsRecords | mr_copy.py:10-24 | for a non-zero resolution the result is exactly the stable sort by tick of the closed-form onsets of the note starts, taken in processing order |
| Timeline.ParseMidiFileOnsets | mr_copy.py:10-24 | the result has exactly as many onsets as note starts; each onset is the closed-form record of a note start, and each note start's record is present |
| Timeline.ZeroResolutionFails | mr_copy.py:8-21 | with resolution 0 the operation fails iff some track holds a note_on with positive velocity |
| Timeline.LastTempoIsMostRecent | mr_copy.py:12-18 | the tempo in force is that of the most recent set_tempo in processing order, or 500000 when there is none |
| Timeline.TickAtMonotone | mr_copy.py:11-16 | with non-negative deltas, the accumulated tick never decreases along a track |
| Timeline.TickAtIsRunningSum | mr_copy.py:11-16 | an event's tick is the previous event's tick (0 at track start) plus its own delta |
| Timeline.OnsetSeconds | mr_copy.py:19-24 | every returned onset carries the pitch and track tick of some note start, and seconds equal to that tick times the tempo in force there over 1000000 times the resolution |
| Timeline.SecondsSortedWithoutTempoChanges | mr_copy.py:12-24 | with no set_tempo in any track and a positive resolution, the returned onsets are also in non-decreasing order of seconds |
| Timeline.OneBeatAtDefaultTempo | mr_copy.py:12-22 | a note 480 ticks in, at 480 ticks per beat and tempo 500000, is one onset at 0.5 seconds |
| Timeline.LaterTrackSortedFirst | mr_copy.py:24 | at 480 ticks per beat, an onset at tick 50 on track 2 (5/96 s) is placed before one at tick 100 on track 1 (5/48 s) |
| Timeline.ZeroVelocityIsRelease | mr_copy.py:19 | a note_on with velocity 0 produces no onset |
| Timeline.TempoFollowsProcessingOrder | mr_copy.py:14-18 | a set_tempo on a later track does not change an earlier track's onset at the same tick; the tie keeps track order |
| Timeline.ZeroResolutionWithNote | mr_copy.py:21 | resolution 0 with a note start gives a division-by-zero failure |
| Fretboard.PositionsOnStrings | mr_copy.py:28-31 | the positions on the first n strings are exactly the playable ones there, in strictly increasing string order, at most n of them |
| Fretboard.MapNote | mr_copy.py:26-32 | a position is returned iff its string exists, its fret is note minus that string's open pitch, and the fret is in 0..maxFret; strings strictly increase; at most one per string |
| Fretboard.MapNoteToGuitar | mr_copy.py:4-32 | on the tuning 40,45,50,55,59,64 with 9 frets: exactly the playable positions, strings increasing, at most 6 |
| Fretboard.NoteA2 | mr_copy.py:28-31 | note 45 maps to string 1 fret 5 and string 2 fret 0 |
| Fretboard.NoteBelowRange | mr_copy.py:28-31 | note 30 maps to no position |

## Left out

- Reading the file with `mido.MidiFile` (mr_copy.py:7) is file I/O in a foreign library. The model takes the decoded tracks and the resolution as parameters.
- Message kinds other than `set_tempo` and `note_on` are one `Other` kind, since the code only reads their delta time.
- Midi.TickToSecond: computes the exact real value; the floating-point rounding of `mido.tick2second` is not modelled.
- The script at mr_copy.py:35-41 is not modelled. It holds the hard-coded path, the driver loop and the `print` formatting, which are presentation and I/O.
- Negative deltas and non-positive tempos are not validated, because the code does not validate them. Only `TickAtMonotone` assumes non-negative deltas, as its property needs them.

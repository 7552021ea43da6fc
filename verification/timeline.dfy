/** Timeline reconstruction (`parse_midi_file`): one sequential pass over the
    tracks, track 0 to the end, then track 1, and so on, keeping a tick
    accumulator per track and one tempo register shared by all tracks; every
    note start found on the way yields an onset, and the onsets are finally
    sorted stably by tick.

    Besides the pass itself (`Walk`), the module gives each onset a
    closed-form description (`RecordAt`): its tick is the sum of the deltas of
    its track up to and including the note, and its tempo is the last
    set_tempo met before it in processing order. */
module Timeline {
  import opened Midi
  import opened TickSort

  /** The position of one event: track number and index within the track. */
  datatype Pos = Pos(track: nat, index: nat)

  /** The pass is about to read event `j` of track `i` (or has finished
      track `i` when `j` is its length, or all tracks when `i` is their number). */
  predicate Cursor(tracks: seq<Track>, i: nat, j: nat) {
    i <= |tracks| && (i < |tracks| ==> j <= |tracks[i]|)
  }

  /** The sequential pass. `tick` is the accumulator of track `i` and `tempo`
      the shared register, both as they stand before event `j` of track `i`.
      A track starts with its accumulator at 0 and inherits the register from
      the track before. An event first advances the accumulator by its delta;
      a set_tempo then replaces the register; a note start emits an onset at
      the accumulated tick, converted with the register's current value.
      Whatever the accumulator and register hold, exactly one onset comes out
      per remaining note start; `WalkFollowsSources` gives their values. */
  function Walk(tracks: seq<Track>, ticksPerBeat: int, i: nat, j: nat, tick: int, tempo: int): (r: seq<Onset>)
    requires ticksPerBeat != 0
    requires Cursor(tracks, i, j)
    ensures |r| == |SourcesFrom(tracks, i, j)|
    decreases |tracks| - i, if i < |tracks| then |tracks[i]| - j else 0
  {
    if i == |tracks| then []
    else if j == |tracks[i]| then Walk(tracks, ticksPerBeat, i + 1, 0, 0, tempo)
    else
      var e := tracks[i][j];
      var now := tick + e.delta;
      var tempo' := if e.SetTempo? then e.tempo else tempo;
      var emitted := if StartsNote(e) then [Onset(e.note, now, TickToSecond(now, ticksPerBeat, tempo'))] else [];
      emitted + Walk(tracks, ticksPerBeat, i, j + 1, now, tempo')
  }

  /** The onsets in the order the pass collects them, before sorting: one
      per note start, in processing order, each the closed-form onset of its
      note (tick = delta sum of its track up to the note, tempo = last
      set_tempo processed before it). */
  function Collect(tracks: seq<Track>, ticksPerBeat: int): (r: seq<Onset>)
    requires ticksPerBeat != 0
    ensures Matches(tracks, ticksPerBeat, r, Sources(tracks))
  {
    assert |tracks| > 0 ==> tracks[0][..0] == [] && tracks[..0] == [];
    WalkFollowsSources(tracks, ticksPerBeat, 0, 0, 0, DefaultTempo);
    Walk(tracks, ticksPerBeat, 0, 0, 0, DefaultTempo)
  }

  /** Outcome of `parse_midi_file`. mr_copy.py divides by the resolution
      when it converts the first onset, so a zero resolution fails exactly when
      there is an onset to convert. */
  datatype Parsed = Ok(onsets: seq<Onset>) | ZeroDivisionError

  // ---------------------------------------------------------------------
  // Closed-form reference: which events produce onsets, and with what values.
  // ---------------------------------------------------------------------

  predicate IsSource(tracks: seq<Track>, p: Pos) {
    p.track < |tracks| && p.index < |tracks[p.track]| && StartsNote(tracks[p.track][p.index])
  }

  /** `p` is not processed before event `j` of track `i`. */
  predicate AtOrAfter(p: Pos, i: nat, j: nat) {
    p.track > i || (p.track == i && p.index >= j)
  }

  /** Processing order: track by track, and within a track by index. */
  predicate Before(p: Pos, q: Pos) {
    p.track < q.track || (p.track == q.track && p.index < q.index)
  }

  /** The positions of note starts from event `j` of track `i` onward, in
      processing order. */
  function SourcesFrom(tracks: seq<Track>, i: nat, j: nat): (ps: seq<Pos>)
    requires Cursor(tracks, i, j)
    ensures forall p :: p in ps <==> IsSource(tracks, p) && AtOrAfter(p, i, j)
    ensures forall a, b :: 0 <= a < b < |ps| ==> Before(ps[a], ps[b])
    decreases |tracks| - i, if i < |tracks| then |tracks[i]| - j else 0
  {
    if i == |tracks| then []
    else if j == |tracks[i]| then SourcesFrom(tracks, i + 1, 0)
    else
      var rest := SourcesFrom(tracks, i, j + 1);
      assert forall b :: 0 <= b < |rest| ==> Before(Pos(i, j), rest[b]) by {
        forall b | 0 <= b < |rest|
          ensures Before(Pos(i, j), rest[b])
        {
          assert rest[b] in rest;
        }
      }
      (if StartsNote(tracks[i][j]) then [Pos(i, j)] else []) + rest
  }

  /** Every note start of every track, each exactly once, in processing order. */
  function Sources(tracks: seq<Track>): (ps: seq<Pos>)
    ensures forall p :: p in ps <==> IsSource(tracks, p)
    ensures forall a, b :: 0 <= a < b < |ps| ==> Before(ps[a], ps[b])
  {
    SourcesFrom(tracks, 0, 0)
  }

  /** Sum of the deltas of `events`. */
  function DeltaSum(events: seq<Event>): int {
    if |events| == 0 then 0 else DeltaSum(events[..|events| - 1]) + events[|events| - 1].delta
  }

  /** The absolute tick of event `j` of a track: the deltas up to and
      including that event. */
  function TickAt(track: Track, j: nat): int
    requires j < |track|
  {
    DeltaSum(track[..j + 1])
  }

  /** All events of the tracks, in processing order. */
  function Flatten(tracks: seq<Track>): seq<Event> {
    if |tracks| == 0 then [] else Flatten(tracks[..|tracks| - 1]) + tracks[|tracks| - 1]
  }

  /** The events processed before event `j` of track `i`: all earlier tracks
      completely, then the first `j` events of track `i`. */
  function ProcessedBefore(tracks: seq<Track>, i: nat, j: nat): seq<Event>
    requires i < |tracks| && j <= |tracks[i]|
  {
    Flatten(tracks[..i]) + tracks[i][..j]
  }

  /** The tempo of the last set_tempo among `events`, or the default. */
  function LastTempo(events: seq<Event>): int {
    if |events| == 0 then DefaultTempo
    else if events[|events| - 1].SetTempo? then events[|events| - 1].tempo
    else LastTempo(events[..|events| - 1])
  }

  predicate NoTempoAfter(events: seq<Event>, k: int) {
    forall m :: 0 <= m < |events| && k < m ==> !events[m].SetTempo?
  }

  /** The onset the event at `p` stands for, computed from scratch. */
  function RecordAt(tracks: seq<Track>, ticksPerBeat: int, p: Pos): Onset
    requires ticksPerBeat != 0
    requires IsSource(tracks, p)
  {
    var t := TickAt(tracks[p.track], p.index);
    var tempo := LastTempo(ProcessedBefore(tracks, p.track, p.index));
    Onset(tracks[p.track][p.index].note, t, TickToSecond(t, ticksPerBeat, tempo))
  }

  // ---------------------------------------------------------------------
  // The operation and its properties.
  // ---------------------------------------------------------------------

  /** `parse_midi_file` on already-decoded tracks. */
  function ParseMidiFile(tracks: seq<Track>, ticksPerBeat: int): (r: Parsed)
    ensures r.ZeroDivisionError? <==> ticksPerBeat == 0 && |Sources(tracks)| > 0
    ensures r.Ok? && ticksPerBeat == 0 ==> r.onsets == []
    ensures r.Ok? ==> SortedByTick(r.onsets)
    ensures r.Ok? && ticksPerBeat != 0 ==>
      multiset(r.onsets) == multiset(Collect(tracks, ticksPerBeat))
      && forall t :: WithTick(r.onsets, t) == WithTick(Collect(tracks, ticksPerBeat), t)
  {
    if ticksPerBeat == 0 then
      if |Sources(tracks)| > 0 then ZeroDivisionError else Ok([])
    else
      var collected := Collect(tracks, ticksPerBeat);
      assert forall t :: WithTick(SortByTick(collected), t) == WithTick(collected, t) by {
        forall t {
          SortByTickStable(collected, t);
        }
      }
      Ok(SortByTick(collected))
  }

  lemma DeltaSumSnoc(track: Track, j: nat)
    requires j < |track|
    ensures DeltaSum(track[..j + 1]) == DeltaSum(track[..j]) + track[j].delta
  {
    assert track[..j + 1][..j] == track[..j];
  }

  lemma FlattenSnoc(tracks: seq<Track>, i: nat)
    requires i < |tracks|
    ensures Flatten(tracks[..i + 1]) == Flatten(tracks[..i]) + tracks[i]
  {
    assert tracks[..i + 1][..i] == tracks[..i];
  }

  lemma LastTempoSnoc(events: seq<Event>, e: Event)
    ensures LastTempo(events + [e]) == if e.SetTempo? then e.tempo else LastTempo(events)
  {
    assert (events + [e])[..|events|] == events;
  }

  /** `r` lists, in order, the closed-form onsets of the note starts `ps`. */
  predicate Matches(tracks: seq<Track>, ticksPerBeat: int, r: seq<Onset>, ps: seq<Pos>)
    requires ticksPerBeat != 0
  {
    |r| == |ps| && forall k :: 0 <= k < |r| ==> IsSource(tracks, ps[k]) && r[k] == RecordAt(tracks, ticksPerBeat, ps[k])
  }

  lemma MatchesAppend(tracks: seq<Track>, ticksPerBeat: int, r1: seq<Onset>, ps1: seq<Pos>, r2: seq<Onset>, ps2: seq<Pos>)
    requires ticksPerBeat != 0
    requires Matches(tracks, ticksPerBeat, r1, ps1) && Matches(tracks, ticksPerBeat, r2, ps2)
    ensures Matches(tracks, ticksPerBeat, r1 + r2, ps1 + ps2)
  {
    forall k | 0 <= k < |r1 + r2|
      ensures IsSource(tracks, (ps1 + ps2)[k]) && (r1 + r2)[k] == RecordAt(tracks, ticksPerBeat, (ps1 + ps2)[k])
    {
      if k >= |r1| {
        assert (r1 + r2)[k] == r2[k - |r1|];
        assert (ps1 + ps2)[k] == ps2[k - |r1|];
      }
    }
  }

  /** The pass computes exactly the closed-form onsets of the remaining note
      starts, provided its accumulator and register match their closed forms
      at the cursor. */
  lemma {:induction false} WalkFollowsSources(tracks: seq<Track>, ticksPerBeat: int, i: nat, j: nat, tick: int, tempo: int)
    requires ticksPerBeat != 0
    requires Cursor(tracks, i, j)
    requires i < |tracks| ==> tick == DeltaSum(tracks[i][..j])
    requires i < |tracks| ==> tempo == LastTempo(ProcessedBefore(tracks, i, j))
    ensures Matches(tracks, ticksPerBeat, Walk(tracks, ticksPerBeat, i, j, tick, tempo), SourcesFrom(tracks, i, j))
    decreases |tracks| - i, if i < |tracks| then |tracks[i]| - j else 0
  {
    if i == |tracks| {
    } else if j == |tracks[i]| {
      if i + 1 < |tracks| {
        FlattenSnoc(tracks, i);
        assert tracks[i][..j] == tracks[i];
        assert tracks[i + 1][..0] == [];
        assert ProcessedBefore(tracks, i + 1, 0) == ProcessedBefore(tracks, i, j);
      }
      WalkFollowsSources(tracks, ticksPerBeat, i + 1, 0, 0, tempo);
    } else {
      WalkStep(tracks, ticksPerBeat, i, j, tick, tempo);
    }
  }

  /** One event of the pass: the emitted onset (if any) is the closed-form
      onset of that event, and the state handed on matches the closed forms
      at the next cursor. */
  lemma {:induction false} WalkStep(tracks: seq<Track>, ticksPerBeat: int, i: nat, j: nat, tick: int, tempo: int)
    requires ticksPerBeat != 0
    requires i < |tracks| && j < |tracks[i]|
    requires tick == DeltaSum(tracks[i][..j])
    requires tempo == LastTempo(ProcessedBefore(tracks, i, j))
    ensures Matches(tracks, ticksPerBeat, Walk(tracks, ticksPerBeat, i, j, tick, tempo), SourcesFrom(tracks, i, j))
    decreases |tracks| - i, |tracks[i]| - j, 0
  {
    var e := tracks[i][j];
    var now := tick + e.delta;
    var tempo' := if e.SetTempo? then e.tempo else tempo;
    DeltaSumSnoc(tracks[i], j);
    assert now == TickAt(tracks[i], j);
    assert ProcessedBefore(tracks, i, j + 1) == ProcessedBefore(tracks, i, j) + [e] by {
      assert tracks[i][..j + 1] == tracks[i][..j] + [e];
    }
    LastTempoSnoc(ProcessedBefore(tracks, i, j), e);
    var emitted := if StartsNote(e) then [Onset(e.note, now, TickToSecond(now, ticksPerBeat, tempo'))] else [];
    var here := if StartsNote(e) then [Pos(i, j)] else [];
    var restR := Walk(tracks, ticksPerBeat, i, j + 1, now, tempo');
    var restP := SourcesFrom(tracks, i, j + 1);
    assert Walk(tracks, ticksPerBeat, i, j, tick, tempo) == emitted + restR;
    assert SourcesFrom(tracks, i, j) == here + restP;
    if StartsNote(e) {
      assert IsSource(tracks, Pos(i, j));
      assert emitted[0] == RecordAt(tracks, ticksPerBeat, Pos(i, j));
    }
    assert Matches(tracks, ticksPerBeat, emitted, here);
    WalkFollowsSources(tracks, ticksPerBeat, i, j + 1, now, tempo');
    MatchesAppend(tracks, ticksPerBeat, emitted, here, restR, restP);
  }

  /** `parse_midi_file` is the stable sort by tick of the closed-form onsets
      of the note starts, taken in processing order. */
  lemma ParseMidiFileSortsRecords(tracks: seq<Track>, ticksPerBeat: int)
    requires ticksPerBeat != 0
    ensures var ps := Sources(tracks);
            ParseMidiFile(tracks, ticksPerBeat)
            == Ok(SortByTick(seq(|ps|, k requires 0 <= k < |ps| => RecordAt(tracks, ticksPerBeat, ps[k]))))
  {
    var ps := Sources(tracks);
    var records := seq(|ps|, k requires 0 <= k < |ps| => RecordAt(tracks, ticksPerBeat, ps[k]));
    assert Collect(tracks, ticksPerBeat) == records;
  }

  /** `parse_midi_file` returns, sorted stably by tick, exactly one onset per
      note start: the onset built from the note's own tick and the tempo in
      force when the pass reached it. */
  lemma ParseMidiFileOnsets(tracks: seq<Track>, ticksPerBeat: int)
    requires ticksPerBeat != 0
    ensures ParseMidiFile(tracks, ticksPerBeat).Ok?
    ensures var r := ParseMidiFile(tracks, ticksPerBeat).onsets;
            var ps := Sources(tracks);
            && |r| == |ps|
            && (forall o :: o in r ==> exists k :: 0 <= k < |ps| && o == RecordAt(tracks, ticksPerBeat, ps[k]))
            && (forall k :: 0 <= k < |ps| ==> RecordAt(tracks, ticksPerBeat, ps[k]) in r)
  {
    var collected := Collect(tracks, ticksPerBeat);
    var r := ParseMidiFile(tracks, ticksPerBeat).onsets;
    var ps := Sources(tracks);
    assert multiset(r) == multiset(collected);
    assert |r| == |collected| by {
      assert |multiset(r)| == |r| && |multiset(collected)| == |collected|;
    }
    forall o | o in r
      ensures exists k :: 0 <= k < |ps| && o == RecordAt(tracks, ticksPerBeat, ps[k])
    {
      assert o in multiset(collected);
      var k :| 0 <= k < |collected| && collected[k] == o;
      assert o == RecordAt(tracks, ticksPerBeat, ps[k]);
    }
    forall k | 0 <= k < |ps|
      ensures RecordAt(tracks, ticksPerBeat, ps[k]) in r
    {
      assert collected[k] in multiset(r);
    }
  }

  /** The onsets are the one arrangement of the collected records that is
      sorted by tick and keeps equal ticks in collection order, which is
      what a stable sort by tick returns. */
  lemma ParseMidiFileIsStableSort(tracks: seq<Track>, ticksPerBeat: int, s: seq<Onset>)
    requires ticksPerBeat != 0
    requires SortedByTick(s)
    requires forall t :: WithTick(s, t) == WithTick(Collect(tracks, ticksPerBeat), t)
    ensures ParseMidiFile(tracks, ticksPerBeat) == Ok(s)
  {
    SortedStableUnique(ParseMidiFile(tracks, ticksPerBeat).onsets, s);
  }

  /** A zero resolution makes `parse_midi_file` fail exactly when some track
      holds a note start. */
  lemma ZeroResolutionFails(tracks: seq<Track>)
    ensures ParseMidiFile(tracks, 0).ZeroDivisionError? <==>
            exists i, j :: 0 <= i < |tracks| && 0 <= j < |tracks[i]| && StartsNote(tracks[i][j])
  {
    var ps := Sources(tracks);
    assert ParseMidiFile(tracks, 0).ZeroDivisionError? <==> |ps| > 0;
    if |ps| > 0 {
      assert ps[0] in ps;
      assert IsSource(tracks, ps[0]);
    }
    forall i, j | 0 <= i < |tracks| && 0 <= j < |tracks[i]| && StartsNote(tracks[i][j])
      ensures |ps| > 0
    {
      assert IsSource(tracks, Pos(i, j));
      assert Pos(i, j) in ps;
    }
  }

  /** The tempo of an onset is that of the most recent set_tempo in
      processing order, or 500000 when there is none. */
  lemma {:induction false} LastTempoIsMostRecent(events: seq<Event>)
    ensures (forall k :: 0 <= k < |events| ==> !events[k].SetTempo?) ==> LastTempo(events) == DefaultTempo
    ensures forall k :: 0 <= k < |events| && events[k].SetTempo? && NoTempoAfter(events, k) ==>
              LastTempo(events) == events[k].tempo
  {
    if |events| > 0 {
      var n := |events| - 1;
      var init := events[..n];
      LastTempoIsMostRecent(init);
      forall k | 0 <= k < |events| && events[k].SetTempo? && NoTempoAfter(events, k)
        ensures LastTempo(events) == events[k].tempo
      {
        if k < n {
          assert !events[n].SetTempo?;
          assert init[k] == events[k];
          assert NoTempoAfter(init, k);
        }
      }
      if forall k :: 0 <= k < |events| ==> !events[k].SetTempo? {
        assert !events[n].SetTempo?;
        assert forall k :: 0 <= k < |init| ==> !init[k].SetTempo?;
      }
    }
  }

  /** Along one track, with non-negative deltas, the accumulated tick never
      decreases. */
  lemma {:induction false} TickAtMonotone(track: Track, j: nat, k: nat)
    requires forall m :: 0 <= m < |track| ==> track[m].delta >= 0
    requires j <= k < |track|
    ensures TickAt(track, j) <= TickAt(track, k)
    decreases k - j
  {
    if j < k {
      TickAtMonotone(track, j, k - 1);
      DeltaSumSnoc(track, k);
    }
  }

  /** The closed-form tick of an event is the sum of the deltas of the
      events before it plus its own delta: the accumulator at that point. */
  lemma {:induction false} TickAtIsRunningSum(track: Track, j: nat)
    requires j < |track|
    ensures TickAt(track, j) == (if j == 0 then 0 else TickAt(track, j - 1)) + track[j].delta
  {
    DeltaSumSnoc(track, j);
    if j == 0 {
      assert track[..0] == [];
    }
  }

  /** Every onset returned carries the pitch and the track tick of a note
      start, and seconds equal to that tick times the tempo in force there,
      over 1000000 times the resolution. */
  lemma OnsetSeconds(tracks: seq<Track>, ticksPerBeat: int)
    requires ticksPerBeat != 0
    ensures forall o :: o in ParseMidiFile(tracks, ticksPerBeat).onsets ==>
              exists p :: IsSource(tracks, p)
                && o.note == tracks[p.track][p.index].note
                && o.tick == TickAt(tracks[p.track], p.index)
                && o.seconds * (MicrosPerSecond * ticksPerBeat) as real
                   == (o.tick * LastTempo(ProcessedBefore(tracks, p.track, p.index))) as real
  {
    forall o | o in ParseMidiFile(tracks, ticksPerBeat).onsets
      ensures exists p :: IsSource(tracks, p)
                && o.note == tracks[p.track][p.index].note
                && o.tick == TickAt(tracks[p.track], p.index)
                && o.seconds * (MicrosPerSecond * ticksPerBeat) as real
                   == (o.tick * LastTempo(ProcessedBefore(tracks, p.track, p.index))) as real
    {
      var p := SourceOf(tracks, ticksPerBeat, o);
      RecordAtFields(tracks, ticksPerBeat, p, o);
    }
  }

  /** A note start whose closed-form onset is the returned onset `o`. */
  lemma SourceOf(tracks: seq<Track>, ticksPerBeat: int, o: Onset) returns (p: Pos)
    requires ticksPerBeat != 0
    requires o in ParseMidiFile(tracks, ticksPerBeat).onsets
    ensures IsSource(tracks, p) && o == RecordAt(tracks, ticksPerBeat, p)
  {
    ParseMidiFileOnsets(tracks, ticksPerBeat);
    var ps := Sources(tracks);
    var k :| 0 <= k < |ps| && o == RecordAt(tracks, ticksPerBeat, ps[k]);
    assert ps[k] in ps;
    p := ps[k];
  }

  lemma RecordAtFields(tracks: seq<Track>, ticksPerBeat: int, p: Pos, o: Onset)
    requires ticksPerBeat != 0
    requires IsSource(tracks, p) && o == RecordAt(tracks, ticksPerBeat, p)
    ensures IsSource(tracks, p)
            && o.note == tracks[p.track][p.index].note
            && o.tick == TickAt(tracks[p.track], p.index)
            && o.seconds * (MicrosPerSecond * ticksPerBeat) as real
               == (o.tick * LastTempo(ProcessedBefore(tracks, p.track, p.index))) as real
  {
  }

  /** No set_tempo anywhere among `events`. */
  predicate NoTempoEvents(events: seq<Event>) {
    forall k :: 0 <= k < |events| ==> !events[k].SetTempo?
  }

  lemma {:induction false} FlattenNoTempo(tracks: seq<Track>)
    requires forall i :: 0 <= i < |tracks| ==> NoTempoEvents(tracks[i])
    ensures NoTempoEvents(Flatten(tracks))
  {
    if |tracks| > 0 {
      var init := tracks[..|tracks| - 1];
      assert forall i :: 0 <= i < |init| ==> init[i] == tracks[i];
      FlattenNoTempo(init);
      NoTempoAppend(Flatten(init), tracks[|tracks| - 1]);
    }
  }

  lemma NoTempoAppend(a: seq<Event>, b: seq<Event>)
    requires NoTempoEvents(a) && NoTempoEvents(b)
    ensures NoTempoEvents(a + b)
  {
    forall k | 0 <= k < |a + b|
      ensures !(a + b)[k].SetTempo?
    {
      if k >= |a| {
        assert (a + b)[k] == b[k - |a|];
      }
    }
  }

  /** Without any set_tempo and with a positive resolution, every onset is at
      the default tempo, so the onsets, sorted by tick, are also in
      non-decreasing order of seconds. */
  lemma SecondsSortedWithoutTempoChanges(tracks: seq<Track>, ticksPerBeat: int)
    requires ticksPerBeat > 0
    requires forall i :: 0 <= i < |tracks| ==> NoTempoEvents(tracks[i])
    ensures var r := ParseMidiFile(tracks, ticksPerBeat).onsets;
            forall a, b :: 0 <= a < b < |r| ==> r[a].seconds <= r[b].seconds
  {
    var r := ParseMidiFile(tracks, ticksPerBeat).onsets;
    assert forall o :: o in r ==> o.seconds == TickToSecond(o.tick, ticksPerBeat, DefaultTempo) by {
      forall o | o in r
        ensures o.seconds == TickToSecond(o.tick, ticksPerBeat, DefaultTempo)
      {
        var p := SourceOf(tracks, ticksPerBeat, o);
        var before := ProcessedBefore(tracks, p.track, p.index);
        assert forall i :: 0 <= i < p.track ==> tracks[..p.track][i] == tracks[i];
        FlattenNoTempo(tracks[..p.track]);
        assert NoTempoEvents(tracks[p.track]);
        NoTempoAppend(Flatten(tracks[..p.track]), tracks[p.track][..p.index]);
        LastTempoIsMostRecent(before);
      }
    }
    forall a, b | 0 <= a < b < |r|
      ensures r[a].seconds <= r[b].seconds
    {
      assert r[a] in r && r[b] in r;
      TickToSecondMonotone(r[a].tick, r[b].tick, ticksPerBeat, DefaultTempo);
    }
  }

  // ---------------------------------------------------------------------
  // Worked cases.
  // ---------------------------------------------------------------------

  /** A note one beat in at the default tempo sounds half a second in. */
  lemma OneBeatAtDefaultTempo()
    ensures ParseMidiFile([[SetTempo(0, 500000), NoteOn(480, 60, 100)]], 480) == Ok([Onset(60, 480, 0.5)])
  {
    var tracks := [[SetTempo(0, 500000), NoteOn(480, 60, 100)]];
    var onset := Onset(60, 480, 0.5);
    assert Walk(tracks, 480, 0, 0, 0, DefaultTempo) == [onset] by {
      assert Walk(tracks, 480, 1, 0, 0, 500000) == [];
      assert Walk(tracks, 480, 0, 2, 480, 500000) == [];
      assert Walk(tracks, 480, 0, 1, 0, 500000) == [onset];
    }
    assert Collect(tracks, 480) == [onset];
    assert SortByTick([onset]) == [onset] by {
      assert [onset][1..] == [];
    }
  }

  /** Onsets of later tracks move ahead of earlier ones when their tick is smaller. */
  lemma LaterTrackSortedFirst()
    ensures ParseMidiFile([[NoteOn(100, 60, 90)], [NoteOn(50, 62, 90)]], 480)
            == Ok([Onset(62, 50, 5.0 / 96.0), Onset(60, 100, 5.0 / 48.0)])
  {
    var tracks := [[NoteOn(100, 60, 90)], [NoteOn(50, 62, 90)]];
    var first, second := Onset(60, 100, 5.0 / 48.0), Onset(62, 50, 5.0 / 96.0);
    assert Walk(tracks, 480, 1, 1, 50, DefaultTempo) == [];
    assert Walk(tracks, 480, 1, 0, 0, DefaultTempo) == [second];
    assert Walk(tracks, 480, 0, 1, 100, DefaultTempo) == [second];
    assert Collect(tracks, 480) == [first, second];
    SortPair(first, second);
  }

  /** A note_on with velocity 0 is a release and produces no onset. */
  lemma ZeroVelocityIsRelease()
    ensures ParseMidiFile([[NoteOn(0, 60, 0), Other(10)]], 480) == Ok([])
  {
  }

  /** A set_tempo on a later track does not reach notes of earlier tracks,
      even at the same tick: the first note keeps the default tempo (0.5 s),
      the second gets the new one (1 s), and the tie keeps track order. */
  lemma TempoFollowsProcessingOrder()
    ensures ParseMidiFile([[NoteOn(100, 60, 90)], [SetTempo(0, 1000000), NoteOn(100, 64, 90)]], 100)
            == Ok([Onset(60, 100, 0.5), Onset(64, 100, 1.0)])
  {
    var tracks := [[NoteOn(100, 60, 90)], [SetTempo(0, 1000000), NoteOn(100, 64, 90)]];
    var first, second := Onset(60, 100, 0.5), Onset(64, 100, 1.0);
    TempoExampleWalk();
    assert Collect(tracks, 100) == [first, second];
    SortPair(first, second);
  }

  lemma TempoExampleWalk()
    ensures Walk([[NoteOn(100, 60, 90)], [SetTempo(0, 1000000), NoteOn(100, 64, 90)]], 100, 0, 0, 0, DefaultTempo)
            == [Onset(60, 100, 0.5), Onset(64, 100, 1.0)]
  {
    var tracks := [[NoteOn(100, 60, 90)], [SetTempo(0, 1000000), NoteOn(100, 64, 90)]];
    var second := Onset(64, 100, 1.0);
    assert Walk(tracks, 100, 1, 2, 100, 1000000) == [];
    assert Walk(tracks, 100, 1, 1, 0, 1000000) == [second];
    assert Walk(tracks, 100, 1, 0, 0, DefaultTempo) == [second];
    assert Walk(tracks, 100, 0, 1, 100, DefaultTempo) == [second];
  }

  /** With a zero resolution and a note to convert, the division fails. */
  lemma ZeroResolutionWithNote()
    ensures ParseMidiFile([[NoteOn(0, 60, 1)]], 0) == ZeroDivisionError
  {
    assert Pos(0, 0) in Sources([[NoteOn(0, 60, 1)]]);
  }
}

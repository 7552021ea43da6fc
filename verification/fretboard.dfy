/** Fretboard mapping (`map_note_to_guitar`): the strings on which a MIDI
    pitch can be played within the first few frets, and at which fret. */
module Fretboard {

  /** Standard tuning E-A-D-G-B-E, open-string MIDI pitches from the lowest
      string (string 1) to the highest (string 6). */
  const GuitarTuning: seq<int> := [40, 45, 50, 55, 59, 64]

  /** Highest fret the mapping offers. */
  const MaxFret: int := 9

  /** A 1-based string number and a fret (0 is the open string). */
  datatype Position = Position(stringNo: int, fret: int)

  /** `p` sounds `note` on a string of `tuning` without leaving the fret
      window `0..maxFret`. */
  predicate Playable(note: int, tuning: seq<int>, maxFret: int, p: Position) {
    && 1 <= p.stringNo <= |tuning|
    && p.fret == note - tuning[p.stringNo - 1]
    && 0 <= p.fret <= maxFret
  }

  /** String numbers strictly increase along `ps`, so no string appears twice. */
  predicate IncreasingStrings(ps: seq<Position>) {
    forall a, b :: 0 <= a < b < |ps| ==> ps[a].stringNo < ps[b].stringNo
  }

  /** The positions on the first `n` strings, string by string. */
  function PositionsOnStrings(note: int, tuning: seq<int>, maxFret: int, n: nat): (r: seq<Position>)
    requires n <= |tuning|
    ensures forall p :: p in r <==> Playable(note, tuning, maxFret, p) && p.stringNo <= n
    ensures IncreasingStrings(r)
    ensures |r| <= n
  {
    if n == 0 then []
    else
      var before := PositionsOnStrings(note, tuning, maxFret, n - 1);
      var fret := note - tuning[n - 1];
      assert forall a :: 0 <= a < |before| ==> before[a].stringNo < n by {
        forall a | 0 <= a < |before| ensures before[a].stringNo < n {
          assert before[a] in before;
        }
      }
      before + (if 0 <= fret <= maxFret then [Position(n, fret)] else [])
  }

  /** `map_note_to_guitar` with the tuning and the fret limit as parameters:
      every string whose open pitch is at most `maxFret` semitones below
      `note` contributes its one position, in string order, and nothing else
      is returned. */
  function MapNote(note: int, tuning: seq<int>, maxFret: int): (r: seq<Position>)
    ensures forall p :: p in r <==> Playable(note, tuning, maxFret, p)
    ensures forall k :: 0 <= k < |r| ==>
              1 <= r[k].stringNo <= |tuning| && 0 <= r[k].fret <= maxFret
              && note == tuning[r[k].stringNo - 1] + r[k].fret
    ensures forall s :: 0 <= s < |tuning| && 0 <= note - tuning[s] <= maxFret ==>
              Position(s + 1, note - tuning[s]) in r
    ensures IncreasingStrings(r)
    ensures |r| <= |tuning|
  {
    var r := PositionsOnStrings(note, tuning, maxFret, |tuning|);
    PlayableByIndex(note, tuning, maxFret, r);
    r
  }

  /** Membership stated element by element, and string by string. */
  lemma PlayableByIndex(note: int, tuning: seq<int>, maxFret: int, r: seq<Position>)
    requires forall p :: p in r <==> Playable(note, tuning, maxFret, p)
    ensures forall k :: 0 <= k < |r| ==> Playable(note, tuning, maxFret, r[k])
    ensures forall s :: 0 <= s < |tuning| && 0 <= note - tuning[s] <= maxFret ==>
              Position(s + 1, note - tuning[s]) in r
  {
    forall k | 0 <= k < |r| ensures Playable(note, tuning, maxFret, r[k]) {
      assert r[k] in r;
    }
    forall s | 0 <= s < |tuning| && 0 <= note - tuning[s] <= maxFret
      ensures Position(s + 1, note - tuning[s]) in r
    {
      assert Playable(note, tuning, maxFret, Position(s + 1, note - tuning[s]));
    }
  }

  /** The mapping mr_copy.py performs, on the guitar's standard tuning and nine frets. */
  function MapNoteToGuitar(note: int): (r: seq<Position>)
    ensures forall p :: p in r <==> Playable(note, GuitarTuning, MaxFret, p)
    ensures IncreasingStrings(r)
    ensures |r| <= 6
  {
    MapNote(note, GuitarTuning, MaxFret)
  }

  /** Pitch 45 (A) is the fifth fret of string 1 and the open string 2. */
  lemma NoteA2()
    ensures MapNoteToGuitar(45) == [Position(1, 5), Position(2, 0)]
  {
    var tuning := GuitarTuning;
    assert tuning[0] == 40 && tuning[1] == 45 && tuning[2] == 50;
    assert tuning[3] == 55 && tuning[4] == 59 && tuning[5] == 64;
    var two := [Position(1, 5), Position(2, 0)];
    assert PositionsOnStrings(45, tuning, 9, 1) == [Position(1, 5)];
    assert PositionsOnStrings(45, tuning, 9, 2) == two;
    assert PositionsOnStrings(45, tuning, 9, 3) == two;
    assert PositionsOnStrings(45, tuning, 9, 4) == two;
    assert PositionsOnStrings(45, tuning, 9, 5) == two;
    assert PositionsOnStrings(45, tuning, 9, 6) == two;
  }

  /** Pitch 30 lies below every open string. */
  lemma NoteBelowRange()
    ensures MapNoteToGuitar(30) == []
  {
  }
}

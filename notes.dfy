/**
 * The note extractor: `Program.SaveNotes` turns the decoded note events of
 * one replay into an N x 3 table (note id, normalised accuracy, spawn time)
 * with one row per non-bomb event, or writes nothing at all.
 */
module Notes {
  import opened Wrappers
  import opened Filtering
  import opened Numeric

  /** `NoteEventType` of the replay decoder. */
  datatype NoteKind = Good | Bad | Miss | Bomb

  /**
   * A decoded note event.  `cutDistance` is
   * `noteCutInfo.cutDistanceToCenter`; it is only read for good cuts.
   */
  datatype NoteEvent = NoteEvent(kind: NoteKind, noteId: int, spawnTime: real, cutDistance: real)

  /** A cut this far (or farther) from the note's centre scores zero. */
  const CutRange: real := 0.3

  /** One row of the output table: (note id, accuracy, spawn time). */
  type Row = (real, real, real)

  /** The `FindAll` predicate of `SaveNotes`. */
  predicate IsNotBomb(e: NoteEvent) {
    e.kind != Bomb
  }

  /** `notBombNotes`: the events that are not bombs, in decode order. */
  function NotBombs(notes: seq<NoteEvent>): (r: seq<NoteEvent>)
    ensures |r| <= |notes|
    ensures forall i :: 0 <= i < |r| ==> r[i].kind != Bomb
  {
    Filter(IsNotBomb, notes)
  }

  /**
   * The accuracy column: `1 - clamp(d / 0.3, 0, 1)` for a good cut and
   * exactly 0 for every other kind.  It lies in [0, 1], is 1 for a cut at
   * the centre and 0 for a cut at distance 0.3 or more.
   */
  function Accuracy(e: NoteEvent): (a: real)
    ensures 0.0 <= a <= 1.0
    ensures e.kind != Good ==> a == 0.0
    ensures e.kind == Good && e.cutDistance <= 0.0 ==> a == 1.0
    ensures e.kind == Good && e.cutDistance >= CutRange ==> a == 0.0
    ensures e.kind == Good && 0.0 <= e.cutDistance <= CutRange ==> a == 1.0 - e.cutDistance / CutRange
  {
    if e.kind == Good then 1.0 - Clamp(e.cutDistance / CutRange, 0.0, 1.0) else 0.0
  }

  /** Of two good cuts, the one nearer the centre never scores lower. */
  lemma AccuracyMonotone(e1: NoteEvent, e2: NoteEvent)
    requires e1.kind == Good && e2.kind == Good
    requires e1.cutDistance <= e2.cutDistance
    ensures Accuracy(e1) >= Accuracy(e2)
  {
    ClampMonotone(e1.cutDistance / CutRange, e2.cutDistance / CutRange, 0.0, 1.0);
  }

  /** The row written for one event (the note id is stored as a floating-point number). */
  function RowOf(e: NoteEvent): (r: Row)
    ensures r.0 == e.noteId as real && r.2 == e.spawnTime
    ensures r.1 == Accuracy(e) && 0.0 <= r.1 <= 1.0 && (e.kind != Good ==> r.1 == 0.0)
  {
    (e.noteId as real, Accuracy(e), e.spawnTime)
  }

  /** The whole table `SaveNotes` writes for `notes` (possibly empty). */
  function Rows(notes: seq<NoteEvent>): (rows: seq<Row>)
    ensures |rows| <= |notes|
    ensures forall k :: 0 <= k < |rows| ==> 0.0 <= rows[k].1 <= 1.0
  {
    var kept := NotBombs(notes);
    seq(|kept|, i requires 0 <= i < |kept| => RowOf(kept[i]))
  }

  /**
   * One row per non-bomb event, in input order, and no bomb ever: row k
   * comes from the input event at the k-th index of the ascending list of
   * ALL indices holding a non-bomb event.  Column 0 is that event's note id,
   * column 1 its accuracy, column 2 its spawn time.
   */
  lemma RowsFollowEvents(notes: seq<NoteEvent>)
    ensures var q := Positions(IsNotBomb, notes, 0);
      |Rows(notes)| == |q| &&
      (forall k, l :: 0 <= k < l < |q| ==> q[k] < q[l]) &&
      (forall j :: 0 <= j < |notes| && notes[j].kind != Bomb ==> j in q) &&
      (forall k :: 0 <= k < |q| ==>
        notes[q[k]].kind != Bomb &&
        Rows(notes)[k] == (notes[q[k]].noteId as real, Accuracy(notes[q[k]]), notes[q[k]].spawnTime))
  {
    FilterIsOrderedSelection(IsNotBomb, notes);
  }

  /** The table is empty exactly when the input is empty or holds only bombs. */
  lemma RowsEmptyIff(notes: seq<NoteEvent>)
    ensures Rows(notes) == [] <==> forall i :: 0 <= i < |notes| ==> notes[i].kind == Bomb
  {
    FilterEmptyIff(IsNotBomb, notes);
  }

  /** Bombs contribute nothing: removing them from the input gives the same table. */
  lemma RowsIgnoreBombs(notes: seq<NoteEvent>)
    ensures Rows(NotBombs(notes)) == Rows(notes)
  {
    FilterIdempotent(IsNotBomb, notes);
  }

  /** `t` holds exactly `rows`, one per line, in three columns. */
  ghost predicate HoldsRows(t: array2<real>, rows: seq<Row>)
    reads t
  {
    t.Length0 == |rows| && t.Length1 == 3 &&
    forall i :: 0 <= i < t.Length0 ==> (t[i, 0], t[i, 1], t[i, 2]) == rows[i]
  }

  /**
   * `Program.SaveNotes`: `None` when no event survives the bomb filter (no
   * file is written), otherwise the table handed to `np.save`.
   */
  method SaveNotes(notes: seq<NoteEvent>) returns (file: Option<array2<real>>)
    ensures file.None? <==> forall i :: 0 <= i < |notes| ==> notes[i].kind == Bomb
    ensures file.Some? ==> fresh(file.value) && HoldsRows(file.value, Rows(notes))
  {
    var notBombNotes := NotBombs(notes);
    RowsEmptyIff(notes);
    if |notBombNotes| == 0 {
      return None;
    }
    var output := new real[|notBombNotes|, 3];
    var index := 0;
    while index < |notBombNotes|
      invariant 0 <= index <= |notBombNotes|
      invariant forall i :: 0 <= i < index ==>
                  (output[i, 0], output[i, 1], output[i, 2]) == RowOf(notBombNotes[i])
    {
      var note := notBombNotes[index];
      output[index, 0] := note.noteId as real;
      output[index, 1] := if note.kind == Good then 1.0 - Clamp(note.cutDistance / CutRange, 0.0, 1.0) else 0.0;
      output[index, 2] := note.spawnTime;
      index := index + 1;
    }
    return Some(output);
  }

  /**
   * Two good cuts at distances 0 and 0.3 and one bomb give exactly the
   * rows [id0, 1, t0] and [id1, 0, t1].
   */
  lemma TwoCutsAndABomb(id0: int, t0: real, id1: int, t1: real, id2: int, t2: real, d2: real)
    ensures Rows([NoteEvent(Good, id0, t0, 0.0), NoteEvent(Good, id1, t1, 0.3), NoteEvent(Bomb, id2, t2, d2)])
            == [(id0 as real, 1.0, t0), (id1 as real, 0.0, t1)]
  {
    var notes := [NoteEvent(Good, id0, t0, 0.0), NoteEvent(Good, id1, t1, 0.3), NoteEvent(Bomb, id2, t2, d2)];
    assert Filter(IsNotBomb, notes[2..]) == [] by { assert notes[2..][1..] == []; }
    assert Filter(IsNotBomb, notes[1..]) == [notes[1]] by { assert notes[1..][1..] == notes[2..]; }
    assert NotBombs(notes) == [notes[0], notes[1]];
  }
}

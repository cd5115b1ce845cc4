/**
 The submit step of the persona form: walk the slots in order, skip (with a
 warning) any slot whose name or profession is empty, turn each remaining
 slot into a persona numbered by its position, collect it, and append it as
 one row to the persona sheet. An append may fail; the failure is reported
 and the walk goes on.
 */
module Batch {
  import opened Session

  /** A submitted persona; `id` is the slot's 1-based position in the batch. */
  datatype Persona = Persona(id: nat, name: string, dob: string, profession: string, description: string)

  /** One sheet row: ID, Name, DOB, Profession, Description. */
  type Row = (int, string, string, string, string)

  /** What one submit leaves behind: the collected personas, the sheet after
      the appends, and the 1-based numbers of the skipped slots (each of
      which produced a warning). */
  datatype Outcome = Outcome(personas: seq<Persona>, sheet: seq<Row>, skipped: seq<nat>)

  /** The slot has the two required fields. */
  predicate Complete(s: Slot) {
    s.name != "" && s.profession != ""
  }

  /** The persona built from slot i. */
  function MakePersona(i: nat, s: Slot): (p: Persona)
    ensures p.id == i + 1
    ensures p.name == s.name && p.dob == s.dob
    ensures p.profession == s.profession && p.description == s.description
  {
    Persona(i + 1, s.name, s.dob, s.profession, s.description)
  }

  /** The row the save step appends for a persona, in the sheet's column
      order ID, Name, DOB, Profession, Description. */
  function ToRow(p: Persona): (r: Row)
    ensures r.0 == p.id && r.1 == p.name && r.2 == p.dob
    ensures r.3 == p.profession && r.4 == p.description
  {
    (p.id, p.name, p.dob, p.profession, p.description)
  }

  /** Attempts to save persona p: the row lands unless the append fails,
      which the model lets `failed` (a set of persona ids) decide. Existing
      rows are never touched, and at most the persona's own row is added. */
  function Save(sheet: seq<Row>, p: Persona, failed: set<nat>): (r: seq<Row>)
    ensures |sheet| <= |r| <= |sheet| + 1 && r[..|sheet|] == sheet
    ensures |r| == |sheet| + 1 <==> p.id !in failed
    ensures |r| == |sheet| + 1 ==> r[|sheet|] == ToRow(p)
  {
    if p.id in failed then sheet else sheet + [ToRow(p)]
  }

  /** The rows that land when each persona of ps is saved in turn: the rows
      of those personas whose append does not fail, in order. */
  function SavedRows(ps: seq<Persona>, failed: set<nat>): (rows: seq<Row>)
    ensures |rows| <= |ps|
  {
    if |ps| == 0 then []
    else Save(SavedRows(ps[..|ps| - 1], failed), ps[|ps| - 1], failed)
  }

  /** When no append fails, every persona's row lands, in order. */
  lemma {:induction false} SavedRowsNoFailures(ps: seq<Persona>)
    ensures |SavedRows(ps, {})| == |ps|
    ensures forall j :: 0 <= j < |ps| ==> SavedRows(ps, {})[j] == ToRow(ps[j])
  {
    if |ps| > 0 {
      SavedRowsNoFailures(ps[..|ps| - 1]);
    }
  }

  /** Reference definition of the rows that land: walking the personas from
      the front, keep the row of each persona whose append does not fail. */
  function Landed(ps: seq<Persona>, failed: set<nat>): seq<Row> {
    if |ps| == 0 then []
    else (if ps[0].id in failed then [] else [ToRow(ps[0])]) + Landed(ps[1..], failed)
  }

  lemma {:induction false} LandedSnoc(ps: seq<Persona>, p: Persona, failed: set<nat>)
    ensures Landed(ps + [p], failed) == Landed(ps, failed) + (if p.id in failed then [] else [ToRow(p)])
  {
    if |ps| > 0 {
      assert (ps + [p])[1..] == ps[1..] + [p];
      LandedSnoc(ps[1..], p, failed);
    } else {
      assert ([] + [p])[1..] == [];
    }
  }

  /** Saving the personas in turn lands exactly the rows of those whose
      append does not fail, in order. */
  lemma {:induction false} SavedRowsLanded(ps: seq<Persona>, failed: set<nat>)
    ensures SavedRows(ps, failed) == Landed(ps, failed)
  {
    if |ps| > 0 {
      var init := ps[..|ps| - 1];
      SavedRowsLanded(init, failed);
      LandedSnoc(init, ps[|ps| - 1], failed);
      assert init + [ps[|ps| - 1]] == ps;
    }
  }

  /** A row is on the sheet after the saves exactly when it is the row of a
      persona whose append did not fail. */
  lemma {:induction false} SavedRowsMembers(ps: seq<Persona>, failed: set<nat>)
    ensures forall r :: r in SavedRows(ps, failed) <==> exists p :: p in ps && p.id !in failed && r == ToRow(p)
  {
    if |ps| > 0 {
      var init := ps[..|ps| - 1];
      var last := ps[|ps| - 1];
      SavedRowsMembers(init, failed);
      assert ps == init + [last];
      forall r
        ensures r in SavedRows(ps, failed) <==> exists p :: p in ps && p.id !in failed && r == ToRow(p)
      {
        if r in SavedRows(ps, failed) && !(r in SavedRows(init, failed)) {
          assert r == ToRow(last) && last.id !in failed;
          assert last in ps;
        }
        if exists p :: p in ps && p.id !in failed && r == ToRow(p) {
          var p :| p in ps && p.id !in failed && r == ToRow(p);
          if p != last {
            assert p in init;
          }
        }
      }
    }
  }

  /** The slots the submit loop reads, in order. */
  function ReadSlots(m: SlotMap, n: nat): (slots: seq<Slot>)
    requires HasSlots(m, n)
    ensures |slots| == n
    ensures forall i :: 0 <= i < n ==> slots[i] == ReadSlot(m, i)
  {
    seq(n, i requires 0 <= i < n && HasSlots(m, n) => ReadSlot(m, i))
  }

  /** Persona p is the one built from its own complete slot. */
  predicate FromSlot(p: Persona, slots: seq<Slot>) {
    && 1 <= p.id <= |slots|
    && Complete(slots[p.id - 1])
    && p == MakePersona(p.id - 1, slots[p.id - 1])
  }

  /** Persona ids strictly increase along the sequence. */
  predicate IdsIncrease(ps: seq<Persona>) {
    forall j, l :: 0 <= j < l < |ps| ==> ps[j].id < ps[l].id
  }

  /** Some persona of ps carries the given id. */
  predicate HasId(ps: seq<Persona>, id: nat) {
    exists j :: 0 <= j < |ps| && ps[j].id == id
  }

  lemma HasIdAppend(ps: seq<Persona>, p: Persona)
    ensures forall id :: HasId(ps, id) ==> HasId(ps + [p], id)
    ensures HasId(ps + [p], p.id)
  {
    forall id | HasId(ps, id)
      ensures HasId(ps + [p], id)
    {
      var j :| 0 <= j < |ps| && ps[j].id == id;
      assert (ps + [p])[j].id == id;
    }
    assert (ps + [p])[|ps|] == p;
  }

  /** The submit loop over the slots read from the session state. */
  function Submit(slots: seq<Slot>, failed: set<nat>, sheet: seq<Row>): (r: Outcome)
    // every slot is either collected or skipped
    ensures |r.personas| + |r.skipped| == |slots|
    // each persona is built from its complete slot and numbered by position
    ensures forall j :: 0 <= j < |r.personas| ==> FromSlot(r.personas[j], slots)
    // in slot order
    ensures IdsIncrease(r.personas)
  {
    if |slots| == 0 then Outcome([], sheet, [])
    else
      var i := |slots| - 1;
      var b := Submit(slots[..i], failed, sheet);
      assert forall k :: 0 <= k < i ==> slots[..i][k] == slots[k];
      assert forall j :: 0 <= j < |b.personas| ==> FromSlot(b.personas[j], slots);
      var s := slots[i];
      if !Complete(s) then
        Outcome(b.personas, b.sheet, b.skipped + [i + 1])
      else
        var p := MakePersona(i, s);
        Outcome(b.personas + [p], Save(b.sheet, p, failed), b.skipped)
  }

  /** Unfolds one step of Submit: the last slot is skipped or collected. */
  lemma SubmitStep(slots: seq<Slot>, failed: set<nat>, sheet: seq<Row>)
    requires |slots| > 0
    ensures var i := |slots| - 1;
            var b := Submit(slots[..i], failed, sheet);
            var p := MakePersona(i, slots[i]);
            Submit(slots, failed, sheet)
              == if Complete(slots[i]) then Outcome(b.personas + [p], Save(b.sheet, p, failed), b.skipped)
                 else Outcome(b.personas, b.sheet, b.skipped + [i + 1])
  {
  }

  /** No complete slot is missed. */
  lemma {:induction false} SubmitCollectsComplete(slots: seq<Slot>, failed: set<nat>, sheet: seq<Row>)
    ensures forall i :: 0 <= i < |slots| && Complete(slots[i]) ==> HasId(Submit(slots, failed, sheet).personas, i + 1)
  {
    if |slots| > 0 {
      var i := |slots| - 1;
      var b := Submit(slots[..i], failed, sheet);
      var r := Submit(slots, failed, sheet);
      SubmitCollectsComplete(slots[..i], failed, sheet);
      SubmitStep(slots, failed, sheet);
      if Complete(slots[i]) {
        assert r.personas == b.personas + [MakePersona(i, slots[i])];
        HasIdAppend(b.personas, MakePersona(i, slots[i]));
      } else {
        assert r.personas == b.personas;
      }
      forall k | 0 <= k < i && Complete(slots[k])
        ensures HasId(r.personas, k + 1)
      {
        assert slots[..i][k] == slots[k];
      }
    }
  }

  /** The skipped slot numbers are exactly those of the incomplete slots. */
  lemma {:induction false} SubmitSkipsIncomplete(slots: seq<Slot>, failed: set<nat>, sheet: seq<Row>)
    ensures forall j :: 0 <= j < |Submit(slots, failed, sheet).skipped| ==>
              var c := Submit(slots, failed, sheet).skipped[j];
              1 <= c <= |slots| && !Complete(slots[c - 1])
    ensures forall i :: 0 <= i < |slots| && !Complete(slots[i]) ==> i + 1 in Submit(slots, failed, sheet).skipped
  {
    if |slots| > 0 {
      var i := |slots| - 1;
      var b := Submit(slots[..i], failed, sheet);
      var r := Submit(slots, failed, sheet);
      SubmitSkipsIncomplete(slots[..i], failed, sheet);
      SubmitStep(slots, failed, sheet);
      assert forall k :: 0 <= k < i ==> slots[..i][k] == slots[k];
      if Complete(slots[i]) {
        assert r.skipped == b.skipped;
      } else {
        assert r.skipped == b.skipped + [i + 1];
        assert r.skipped[|b.skipped|] == i + 1;
      }
      forall k | 0 <= k < |slots| && !Complete(slots[k])
        ensures k + 1 in r.skipped
      {
        if k < i {
          assert k + 1 in b.skipped;
        }
      }
    }
  }

  /** The sheet only grows, by the rows of the collected personas whose
      save succeeded, in collection order. */
  lemma {:induction false} SubmitAppends(slots: seq<Slot>, failed: set<nat>, sheet: seq<Row>)
    ensures Submit(slots, failed, sheet).sheet == sheet + SavedRows(Submit(slots, failed, sheet).personas, failed)
  {
    if |slots| > 0 {
      var i := |slots| - 1;
      SubmitAppends(slots[..i], failed, sheet);
      SubmitStep(slots, failed, sheet);
      var b := Submit(slots[..i], failed, sheet);
      var p := MakePersona(i, slots[i]);
      if Complete(slots[i]) {
        assert (b.personas + [p])[..|b.personas|] == b.personas;
        assert (sheet + SavedRows(b.personas, failed)) + [ToRow(p)]
            == sheet + (SavedRows(b.personas, failed) + [ToRow(p)]);
      }
    }
  }

  /** Only personas with a name and a profession produce rows. */
  lemma {:induction false} SavedRowsComplete(ps: seq<Persona>, failed: set<nat>)
    requires forall j :: 0 <= j < |ps| ==> ps[j].name != "" && ps[j].profession != ""
    ensures forall j :: 0 <= j < |SavedRows(ps, failed)| ==>
              SavedRows(ps, failed)[j].1 != "" && SavedRows(ps, failed)[j].3 != ""
  {
    if |ps| > 0 {
      SavedRowsComplete(ps[..|ps| - 1], failed);
    }
  }

  /** A slot without a name or a profession never reaches the sheet: every
      appended row has both. */
  lemma {:induction false} SubmitRowsComplete(slots: seq<Slot>, failed: set<nat>, sheet: seq<Row>)
    ensures |sheet| <= |Submit(slots, failed, sheet).sheet|
    ensures forall j :: |sheet| <= j < |Submit(slots, failed, sheet).sheet| ==>
              Submit(slots, failed, sheet).sheet[j].1 != "" && Submit(slots, failed, sheet).sheet[j].3 != ""
  {
    var r := Submit(slots, failed, sheet);
    SubmitAppends(slots, failed, sheet);
    assert forall j :: 0 <= j < |r.personas| ==> FromSlot(r.personas[j], slots);
    SavedRowsComplete(r.personas, failed);
  }

  /** When no save fails, the sheet grows by exactly one row per collected
      persona, in collection order. */
  lemma {:induction false} NoFailuresAllLand(slots: seq<Slot>, sheet: seq<Row>)
    ensures |Submit(slots, {}, sheet).sheet| == |sheet| + |Submit(slots, {}, sheet).personas|
    ensures Submit(slots, {}, sheet).sheet[..|sheet|] == sheet
    ensures forall j :: 0 <= j < |Submit(slots, {}, sheet).personas| ==>
              Submit(slots, {}, sheet).sheet[|sheet| + j] == ToRow(Submit(slots, {}, sheet).personas[j])
  {
    SubmitAppends(slots, {}, sheet);
    SavedRowsNoFailures(Submit(slots, {}, sheet).personas);
  }

  /** A persona is collected before its save is attempted, so failed saves
      change neither the collected personas nor the skipped slots. */
  lemma {:induction false} PersonasIgnoreSaveFailures(slots: seq<Slot>, f1: set<nat>, s1: seq<Row>, f2: set<nat>, s2: seq<Row>)
    ensures Submit(slots, f1, s1).personas == Submit(slots, f2, s2).personas
    ensures Submit(slots, f1, s1).skipped == Submit(slots, f2, s2).skipped
  {
    if |slots| > 0 {
      PersonasIgnoreSaveFailures(slots[..|slots| - 1], f1, s1, f2, s2);
      SubmitStep(slots, f1, s1);
      SubmitStep(slots, f2, s2);
    }
  }

  /** The submit loop run on the session state with count n. */
  function SubmitSession(m: SlotMap, n: Count, failed: set<nat>, sheet: seq<Row>): (r: Outcome)
    requires HasSlots(m, n)
    ensures forall j :: 0 <= j < |r.personas| ==> 1 <= r.personas[j].id <= MaxPersonas
  {
    Submit(ReadSlots(m, n), failed, sheet)
  }

  /** End to end: after a rerun with count n in which the values `inputs`
      were typed, submitting reads back exactly those values. */
  lemma RerunThenSubmit(m: SlotMap, n: Count, inputs: seq<Slot>, failed: set<nat>, sheet: seq<Row>)
    requires WellFormed(m)
    requires |inputs| == n
    ensures AllKeysParse(m)
    ensures HasSlots(Record(Synced(m, n), inputs), n)
    ensures SubmitSession(Record(Synced(m, n), inputs), n, failed, sheet) == Submit(inputs, failed, sheet)
  {
    RerunState(m, n, inputs);
    assert ReadSlots(Record(Synced(m, n), inputs), n) == inputs;
  }

  /** A worked batch: Ana the pilot, a chef without a name, and Bo the clerk.
      Two personas are saved, numbered 1 and 3, and slot 2 is skipped. */
  lemma ExampleBatch()
    ensures var slots := [Slot("Ana", "", "Pilot", ""), Slot("", "", "Chef", ""), Slot("Bo", "", "Clerk", "")];
            var r := Submit(slots, {}, []);
            && r.personas == [Persona(1, "Ana", "", "Pilot", ""), Persona(3, "Bo", "", "Clerk", "")]
            && r.sheet == [(1, "Ana", "", "Pilot", ""), (3, "Bo", "", "Clerk", "")]
            && r.skipped == [2]
  {
    var slots := [Slot("Ana", "", "Pilot", ""), Slot("", "", "Chef", ""), Slot("Bo", "", "Clerk", "")];
    SubmitStep(slots[..1], {}, []);
    assert slots[..1][..0] == [];
    SubmitStep(slots[..2], {}, []);
    assert slots[..2][..1] == slots[..1];
    SubmitStep(slots, {}, []);
  }

  /** The same batch when Ana's append fails: both personas are still
      collected, and Bo's row lands on its own. */
  lemma ExampleFailedSave()
    ensures var slots := [Slot("Ana", "", "Pilot", ""), Slot("", "", "Chef", ""), Slot("Bo", "", "Clerk", "")];
            var r := Submit(slots, {1}, []);
            && r.personas == [Persona(1, "Ana", "", "Pilot", ""), Persona(3, "Bo", "", "Clerk", "")]
            && r.sheet == [(3, "Bo", "", "Clerk", "")]
            && r.skipped == [2]
  {
    var slots := [Slot("Ana", "", "Pilot", ""), Slot("", "", "Chef", ""), Slot("Bo", "", "Clerk", "")];
    SubmitStep(slots[..1], {1}, []);
    assert slots[..1][..0] == [];
    SubmitStep(slots[..2], {1}, []);
    assert slots[..2][..1] == slots[..1];
    SubmitStep(slots, {1}, []);
  }
}

/**
 * The patient record of the quarantine ward and the invariants the mutation
 * operations keep over the whole collection.
 */
module Patients {

  /**
   * A calendar day. The application stores days as ISO "YYYY-MM-DD" strings and
   * compares them as strings; for such strings that order is the order of these
   * day numbers, and only equality and that order are ever used.
   */
  type Date = nat

  datatype TempRecord = TempRecord(date: Date, temp: real)

  datatype Visit = Visit(date: Date, notes: string)

  datatype Patient = Patient(
    id: string,
    bed: int,
    name: string,
    age: int,
    records: seq<TempRecord>,
    visits: seq<Visit>,
    discharged: bool,
    deceased: bool)

  datatype Option<T> = None | Some(value: T)

  /** Neither discharged nor deceased. */
  predicate Active(p: Patient) {
    !p.discharged && !p.deceased
  }

  /** Some temperature reading is dated `d`. */
  predicate HasTempOn(records: seq<TempRecord>, d: Date) {
    exists k :: 0 <= k < |records| && records[k].date == d
  }

  /** Some doctor visit is dated `d`. */
  predicate HasVisitOn(visits: seq<Visit>, d: Date) {
    exists k :: 0 <= k < |visits| && visits[k].date == d
  }

  /** Some patient who is neither discharged nor deceased occupies the bed. */
  predicate BedHeld(ps: seq<Patient>, bed: int) {
    exists i :: 0 <= i < |ps| && ps[i].bed == bed && Active(ps[i])
  }

  /**
   * The lookup by id: the position of the first patient with that id, or None
   * where the application would go on with an undefined patient.
   */
  function Find(ps: seq<Patient>, pid: string): (r: Option<nat>)
    ensures r.Some? ==> r.value < |ps| && ps[r.value].id == pid
    ensures r.Some? ==> forall j :: 0 <= j < r.value ==> ps[j].id != pid
    ensures r.None? <==> forall j :: 0 <= j < |ps| ==> ps[j].id != pid
  {
    if ps == [] then None
    else if ps[0].id == pid then Some(0)
    else match Find(ps[1..], pid)
      case None => None
      case Some(i) => Some(i + 1)
  }

  /** Updating a patient without changing its id leaves every lookup where it was. */
  lemma {:induction false} FindAfterUpdate(ps: seq<Patient>, i: nat, q: Patient, pid: string)
    requires i < |ps| && q.id == ps[i].id
    ensures Find(ps[i := q], pid) == Find(ps, pid)
  {
    if ps != [] && i > 0 {
      assert ps[i := q][1..] == ps[1..][i - 1 := q];
      FindAfterUpdate(ps[1..], i - 1, q, pid);
    }
  }

  // The invariants of the collection.

  /** At most one temperature record per date. */
  predicate OneRecordPerDate(records: seq<TempRecord>) {
    forall j, k :: 0 <= j < k < |records| ==> records[j].date != records[k].date
  }

  /** At most one doctor visit per date. */
  predicate OneVisitPerDate(visits: seq<Visit>) {
    forall j, k :: 0 <= j < k < |visits| ==> visits[j].date != visits[k].date
  }

  /** No two active patients share a bed. */
  predicate ActiveBedsUnique(ps: seq<Patient>) {
    forall i, j :: 0 <= i < j < |ps| && Active(ps[i]) && Active(ps[j]) ==> ps[i].bed != ps[j].bed
  }

  /** No two patients share an id. */
  predicate IdsDistinct(ps: seq<Patient>) {
    forall i, j :: 0 <= i < j < |ps| ==> ps[i].id != ps[j].id
  }

  predicate WellFormed(ps: seq<Patient>) {
    && (forall i :: 0 <= i < |ps| ==> OneRecordPerDate(ps[i].records) && OneVisitPerDate(ps[i].visits))
    && ActiveBedsUnique(ps)
    && IdsDistinct(ps)
  }

  /** Appending a reading for a day the patient has none for keeps every invariant. */
  lemma RecordKeepsWellFormed(ps: seq<Patient>, i: nat, r: TempRecord)
    requires WellFormed(ps) && i < |ps|
    requires !HasTempOn(ps[i].records, r.date)
    ensures WellFormed(ps[i := ps[i].(records := ps[i].records + [r])])
  {
    var rs := ps[i].records + [r];
    forall j, k | 0 <= j < k < |rs| ensures rs[j].date != rs[k].date {
      if k == |rs| - 1 { assert ps[i].records[j].date == rs[j].date; }
    }
  }

  /** Appending a visit for a day the patient has none for keeps every invariant. */
  lemma VisitKeepsWellFormed(ps: seq<Patient>, i: nat, v: Visit)
    requires WellFormed(ps) && i < |ps|
    requires !HasVisitOn(ps[i].visits, v.date)
    ensures WellFormed(ps[i := ps[i].(visits := ps[i].visits + [v])])
  {
    var vs := ps[i].visits + [v];
    forall j, k | 0 <= j < k < |vs| ensures vs[j].date != vs[k].date {
      if k == |vs| - 1 { assert ps[i].visits[j].date == vs[j].date; }
    }
  }

  /** Setting a terminal flag only shrinks the set of active patients. */
  lemma TerminalFlagKeepsWellFormed(ps: seq<Patient>, i: nat, q: Patient)
    requires WellFormed(ps) && i < |ps|
    requires q == ps[i].(discharged := true) || q == ps[i].(deceased := true)
    ensures WellFormed(ps[i := q])
  {
  }

  /** A new active patient on a bed no active patient holds, under an unused id, keeps every invariant. */
  lemma AdmitKeepsWellFormed(ps: seq<Patient>, p: Patient)
    requires WellFormed(ps)
    requires !BedHeld(ps, p.bed)
    requires forall i :: 0 <= i < |ps| ==> ps[i].id != p.id
    requires p.records == [] && p.visits == []
    ensures WellFormed(ps + [p])
  {
    var qs := ps + [p];
    forall i, j | 0 <= i < j < |qs| && Active(qs[i]) && Active(qs[j]) ensures qs[i].bed != qs[j].bed {
      if j == |ps| { assert qs[i] == ps[i]; }
    }
  }
}

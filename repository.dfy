/**
 * The mutation operations: each works on the loaded patient collection in place,
 * either applies completely or leaves the collection as it was, and reports
 * which rule decided.
 */
module Repository {
  import opened JsText
  import opened Patients
  import opened Clinical
  import opened PatientIds

  /** The message each operation shows, as a value. */
  datatype Outcome =
    | Ok
    | NoPatientSelected     // "Choose a patient" / "Pick a patient"
    | InvalidTemperature    // "Enter a valid temperature"
    | NotFound              // the id matches no patient (the application fails on `undefined` here)
    | AlreadyRecordedToday  // "Temperature already recorded today"
    | AlreadyVisitedToday   // "Already visited today"
    | NotEligible           // "Needs 3 fever-free days"
    | EmptyName             // "Enter patient name"
    | InvalidAge            // "Enter valid age"
    | InvalidBed            // "Enter valid bed no."
    | BedTaken              // "Bed already assigned"

  /** The reading passes the form check: a number other than 0 (negative readings pass). */
  predicate AcceptedReading(t: Parsed<real>) {
    t.Num? && t.value != 0.0
  }

  /** The input passes the form check: a number greater than 0. */
  predicate PositiveNumber(n: Parsed<int>) {
    n.Num? && n.value > 0
  }

  /** The loaded collection, changed in place by the operations. */
  class Ward {
    var patients: seq<Patient>

    constructor (loaded: seq<Patient>)
      ensures patients == loaded
    {
      patients := loaded;
    }

    ghost predicate Valid()
      reads this
    {
      WellFormed(patients)
    }

    /** recordTemperature: the nurse records today's reading for a patient. */
    method RecordTemperature(pid: string, reading: Parsed<real>, today: Date) returns (outcome: Outcome)
      modifies this
      ensures outcome == NoPatientSelected <==> pid == ""
      ensures outcome == InvalidTemperature <==> pid != "" && !AcceptedReading(reading)
      ensures outcome == NotFound <==> pid != "" && AcceptedReading(reading) && Find(old(patients), pid).None?
      ensures outcome == AlreadyRecordedToday <==>
        pid != "" && AcceptedReading(reading) && Find(old(patients), pid).Some? &&
        HasTempOn(old(patients)[Find(old(patients), pid).value].records, today)
      ensures outcome == Ok || outcome == NoPatientSelected || outcome == InvalidTemperature ||
              outcome == NotFound || outcome == AlreadyRecordedToday
      ensures outcome != Ok ==> patients == old(patients)
      ensures outcome == Ok ==> (
        reading.Num? && Find(old(patients), pid).Some? &&
        var i := Find(old(patients), pid).value;
        patients == old(patients)[i := old(patients)[i].(records := old(patients)[i].records + [TempRecord(today, reading.value)])])
      ensures old(Valid()) ==> Valid()
    {
      if pid == "" {
        return NoPatientSelected;
      }
      if !AcceptedReading(reading) {
        return InvalidTemperature;
      }
      var found := Find(patients, pid);
      if found.None? {
        return NotFound;
      }
      var i := found.value;
      var p := patients[i];
      if HasTempOn(p.records, today) {
        return AlreadyRecordedToday;
      }
      if WellFormed(patients) {
        RecordKeepsWellFormed(patients, i, TempRecord(today, reading.value));
      }
      patients := patients[i := p.(records := p.records + [TempRecord(today, reading.value)])];
      return Ok;
    }

    /** markDoctorVisit: the doctor records today's visit, with notes that may be empty. */
    method MarkDoctorVisit(pid: string, notes: string, today: Date) returns (outcome: Outcome)
      modifies this
      ensures outcome == NoPatientSelected <==> pid == ""
      ensures outcome == NotFound <==> pid != "" && Find(old(patients), pid).None?
      ensures outcome == AlreadyVisitedToday <==>
        pid != "" && Find(old(patients), pid).Some? &&
        HasVisitOn(old(patients)[Find(old(patients), pid).value].visits, today)
      ensures outcome == Ok || outcome == NoPatientSelected || outcome == NotFound || outcome == AlreadyVisitedToday
      ensures outcome != Ok ==> patients == old(patients)
      ensures outcome == Ok ==> (
        Find(old(patients), pid).Some? &&
        var i := Find(old(patients), pid).value;
        patients == old(patients)[i := old(patients)[i].(visits := old(patients)[i].visits + [Visit(today, notes)])])
      ensures old(Valid()) ==> Valid()
    {
      if pid == "" {
        return NoPatientSelected;
      }
      var found := Find(patients, pid);
      if found.None? {
        return NotFound;
      }
      var i := found.value;
      var p := patients[i];
      if HasVisitOn(p.visits, today) {
        return AlreadyVisitedToday;
      }
      if WellFormed(patients) {
        VisitKeepsWellFormed(patients, i, Visit(today, notes));
      }
      patients := patients[i := p.(visits := p.visits + [Visit(today, notes)])];
      return Ok;
    }

    /**
     * adminDischarge: allowed from three fever-free days on; it does not look at
     * the flags, so it succeeds again on a discharged or deceased patient.
     */
    method AdminDischarge(pid: string) returns (outcome: Outcome)
      modifies this
      ensures outcome == NoPatientSelected <==> pid == ""
      ensures outcome == NotFound <==> pid != "" && Find(old(patients), pid).None?
      ensures outcome == NotEligible <==>
        pid != "" && Find(old(patients), pid).Some? &&
        Streak(old(patients)[Find(old(patients), pid).value].records) < DischargeStreak
      ensures outcome == Ok || outcome == NoPatientSelected || outcome == NotFound || outcome == NotEligible
      ensures outcome != Ok ==> patients == old(patients)
      ensures outcome == Ok ==> (
        Find(old(patients), pid).Some? &&
        var i := Find(old(patients), pid).value;
        patients == old(patients)[i := old(patients)[i].(discharged := true)])
      ensures old(Valid()) ==> Valid()
    {
      if pid == "" {
        return NoPatientSelected;
      }
      var found := Find(patients, pid);
      if found.None? {
        return NotFound;
      }
      var i := found.value;
      var p := patients[i];
      var streak := FeverFreeDays(p);
      if streak < DischargeStreak {
        return NotEligible;
      }
      if WellFormed(patients) {
        TerminalFlagKeepsWellFormed(patients, i, p.(discharged := true));
      }
      patients := patients[i := p.(discharged := true)];
      return Ok;
    }

    /** adminMarkDeath, once the confirmation has been given: no eligibility gate. */
    method AdminMarkDeath(pid: string) returns (outcome: Outcome)
      modifies this
      ensures outcome == NoPatientSelected <==> pid == ""
      ensures outcome == NotFound <==> pid != "" && Find(old(patients), pid).None?
      ensures outcome == Ok || outcome == NoPatientSelected || outcome == NotFound
      ensures outcome != Ok ==> patients == old(patients)
      ensures outcome == Ok ==> (
        Find(old(patients), pid).Some? &&
        var i := Find(old(patients), pid).value;
        patients == old(patients)[i := old(patients)[i].(deceased := true)])
      ensures old(Valid()) ==> Valid()
    {
      if pid == "" {
        return NoPatientSelected;
      }
      var found := Find(patients, pid);
      if found.None? {
        return NotFound;
      }
      var i := found.value;
      var p := patients[i];
      if WellFormed(patients) {
        TerminalFlagKeepsWellFormed(patients, i, p.(deceased := true));
      }
      patients := patients[i := p.(deceased := true)];
      return Ok;
    }

    /**
     * addNewPatient: validates the form, checks that no active patient holds the
     * bed, and appends a new patient under the next id.
     */
    method AddNewPatient(rawName: string, age: Parsed<int>, bed: Parsed<int>) returns (outcome: Outcome)
      modifies this
      ensures outcome == EmptyName <==> Trim(rawName) == ""
      ensures outcome == InvalidAge <==> Trim(rawName) != "" && !PositiveNumber(age)
      ensures outcome == InvalidBed <==> Trim(rawName) != "" && PositiveNumber(age) && !PositiveNumber(bed)
      ensures outcome == BedTaken <==>
        Trim(rawName) != "" && PositiveNumber(age) && PositiveNumber(bed) && BedHeld(old(patients), bed.value)
      ensures outcome == Ok || outcome == EmptyName || outcome == InvalidAge || outcome == InvalidBed || outcome == BedTaken
      ensures outcome != Ok ==> patients == old(patients)
      ensures outcome == Ok ==> (
        age.Num? && bed.Num? &&
        patients == old(patients) + [Patient(NextId(old(patients)), bed.value, Trim(rawName), age.value, [], [], false, false)])
      ensures old(Valid()) ==> Valid()
    {
      var name := Trim(rawName);
      if name == "" {
        return EmptyName;
      }
      if !PositiveNumber(age) {
        return InvalidAge;
      }
      if !PositiveNumber(bed) {
        return InvalidBed;
      }
      if BedHeld(patients, bed.value) {
        return BedTaken;
      }
      var id := NextId(patients);
      var newPatient := Patient(id, bed.value, name, age.value, [], [], false, false);
      if WellFormed(patients) {
        AdmitKeepsWellFormed(patients, newPatient);
      }
      patients := patients + [newPatient];
      return Ok;
    }
  }

  /**
   * Discharging twice is discharging once: the second call is accepted again
   * (the streak did not change) and leaves the collection as the first left it.
   */
  method DischargeTwice(ward: Ward, pid: string) returns (first: Outcome, second: Outcome)
    modifies ward
    ensures first != Ok ==> second == first && ward.patients == old(ward.patients)
    ensures first == Ok ==> (
      second == Ok && Find(old(ward.patients), pid).Some? &&
      var i := Find(old(ward.patients), pid).value;
      ward.patients == old(ward.patients)[i := old(ward.patients)[i].(discharged := true)])
  {
    first := ward.AdminDischarge(pid);
    ghost var once := ward.patients;
    if first == Ok {
      ghost var before := old(ward.patients);
      ghost var i := Find(before, pid).value;
      FindAfterUpdate(before, i, before[i].(discharged := true), pid);
    }
    second := ward.AdminDischarge(pid);
    if first == Ok {
      assert ward.patients == once;
    }
  }

  /** The first admission to an empty ward gets P001 and the name without its padding. */
  method FirstAdmissionScenario(name: string)
    requires name != [] && !IsWhitespace(name[0]) && !IsWhitespace(name[|name| - 1])
  {
    var ward := new Ward([]);
    TrimPadded("  ", name, " ");
    var first := ward.AddNewPatient("  " + name + " ", Num(40), Num(7));
    assert first == Ok;
    assert ward.patients == [Patient("P001", 7, name, 40, [], [], false, false)];
  }

  /** A bed held by an active patient is refused and nothing changes. */
  method BedTakenScenario(holder: Patient, name: string)
    requires Active(holder) && holder.bed > 0
    requires Trim(name) != ""
  {
    var ward := new Ward([holder]);
    assert BedHeld(ward.patients, holder.bed) by { assert ward.patients[0].bed == holder.bed; }
    var second := ward.AddNewPatient(name, Num(52), Num(holder.bed));
    assert second == BedTaken;
    assert ward.patients == [holder];
  }

  /** Once the patient on a bed has died, the same bed is given out again. */
  method BedFreedByDeathScenario(holder: Patient, name: string)
    requires holder.id != "" && Active(holder) && holder.bed > 0
    requires Trim(name) != ""
  {
    var ward := new Ward([holder]);
    var death := ward.AdminMarkDeath(holder.id);
    assert death == Ok;
    ghost var before := ward.patients;
    assert before == [holder.(deceased := true)];
    assert !BedHeld(before, holder.bed);
    var third := ward.AddNewPatient(name, Num(52), Num(holder.bed));
    assert third == Ok;
  }

  /** A patient with no readings is not eligible for discharge. */
  method EarlyDischargeScenario()
  {
    var ward := new Ward([Patient("P001", 7, "Asha", 40, [], [], false, false)]);
    StreakBounds([]);
    var early := ward.AdminDischarge("P001");
    assert early == NotEligible;
    assert ward.patients[0].discharged == false;
  }
}

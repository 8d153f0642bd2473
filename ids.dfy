/**
 * Patient id generation: "P" followed by the number one above the highest
 * numeric suffix in use, zero-padded to three digits.
 */
module PatientIds {
  import opened JsText
  import opened Patients

  /**
   * The numeric suffix the application reads off an id: the id (`P000` when it
   * is empty) without its first `P`, read with parseInt, and 0 when that is NaN.
   */
  function IdSuffix(id: string): (n: int)
    ensures id == "" ==> n == 0
  {
    assert id == "" ==> ParseInt(RemoveFirst("P000", 'P')) == Num(0) by {
      assert RemoveFirst("P000", 'P') == "000" == PadStart(NatToDecimal(0), 3, '0');
      ParsePaddedDecimal(0, 3);
    }
    match ParseInt(RemoveFirst(if id == "" then "P000" else id, 'P'))
    case NaN => 0
    case Num(v) => v
  }

  /** The suffix of every patient's id, in collection order. */
  function Suffixes(ps: seq<Patient>): seq<int> {
    seq(|ps|, i requires 0 <= i < |ps| => IdSuffix(ps[i].id))
  }

  /** The largest element of a non-empty list. */
  function Max(xs: seq<int>): (m: int)
    requires |xs| > 0
    ensures forall i :: 0 <= i < |xs| ==> xs[i] <= m
    ensures exists i :: 0 <= i < |xs| && xs[i] == m
  {
    if |xs| == 1 then xs[0]
    else
      var rest := Max(xs[1..]);
      assert forall i :: 1 <= i < |xs| ==> xs[i] == xs[1..][i - 1];
      if xs[0] >= rest then xs[0] else rest
  }

  /** One above the largest suffix in use, or 1 when there are no patients. */
  function NextNumber(ps: seq<Patient>): (n: int)
    ensures forall i :: 0 <= i < |ps| ==> IdSuffix(ps[i].id) < n
    ensures ps != [] ==> exists i :: 0 <= i < |ps| && IdSuffix(ps[i].id) == n - 1
    ensures ps == [] ==> n == 1
  {
    var ids := Suffixes(ps);
    if |ids| == 0 then 1
    else
      MaxOfSuffixes(ps);
      Max(ids) + 1
  }

  /** The largest suffix in use bounds every patient's suffix and is some patient's suffix. */
  lemma MaxOfSuffixes(ps: seq<Patient>)
    requires |ps| > 0
    ensures forall i :: 0 <= i < |ps| ==> IdSuffix(ps[i].id) <= Max(Suffixes(ps))
    ensures exists i :: 0 <= i < |ps| && IdSuffix(ps[i].id) == Max(Suffixes(ps))
  {
    var ids := Suffixes(ps);
    var m := Max(ids);
    assert forall i :: 0 <= i < |ps| ==> ids[i] == IdSuffix(ps[i].id);
    var w :| 0 <= w < |ids| && ids[w] == m;
    assert IdSuffix(ps[w].id) == m;
  }

  /**
   * "P" followed by the decimal numeral of n, left-padded with zeros to three
   * characters: for n >= 0 the digits after the P are worth n, and a numeral
   * longer than three digits is kept whole, with no leading zero.
   */
  function IdFor(n: int): (id: string)
    ensures |id| >= 4 && id[0] == 'P'
    ensures n >= 0 ==> (
      && (forall k :: 1 <= k < |id| ==> DigitValue(id[k]) < 10)
      && DigitsValue(id[1..], 10) == n
      && (|id| > 4 ==> id[1] != '0'))
  {
    var d := IntToString(n);
    var padded := PadStart(d, 3, '0');
    assert n >= 0 ==> (forall k :: 0 <= k < |padded| ==> DigitValue(padded[k]) < 10) && DigitsValue(padded, 10) == n by {
      if n >= 0 {
        PaddedDigits(d, 3);
        LeadingZerosValue(|padded| - |d|, d);
      }
    }
    assert ("P" + padded)[1..] == padded;
    "P" + padded
  }

  /**
   * The id the next admission gets: unused by every patient, P001 for the
   * first, and otherwise P followed by at least three digits worth the next
   * number whenever that number is not negative.
   */
  function NextId(ps: seq<Patient>): (id: string)
    ensures forall i :: 0 <= i < |ps| ==> ps[i].id != id
    ensures ps == [] ==> id == "P001"
    ensures |id| >= 4 && id[0] == 'P'
    ensures NextNumber(ps) >= 0 ==> (
      && (forall k :: 1 <= k < |id| ==> DigitValue(id[k]) < 10)
      && DigitsValue(id[1..], 10) == NextNumber(ps)
      && IdSuffix(id) == NextNumber(ps))
  {
    var n := NextNumber(ps);
    assert n >= 0 ==> IdSuffix(IdFor(n)) == n by { IdForSuffix(n); }
    assert forall i :: 0 <= i < |ps| ==> ps[i].id != IdFor(n) by {
      forall i | 0 <= i < |ps| ensures ps[i].id != IdFor(n) {
        IdForAbove(n, ps[i].id);
      }
    }
    assert ps == [] ==> IdFor(n) == "P001" by {
      if ps == [] { IdForOne(); }
    }
    IdFor(n)
  }

  /** An id whose suffix is below n is not the id made from n. */
  lemma IdForAbove(n: int, id: string)
    requires IdSuffix(id) < n
    ensures IdFor(n) != id
  {
    IdForSuffix(n);
  }

  lemma IdForOne()
    ensures IdFor(1) == "P001"
  {
    assert NatToDecimal(1) == "1" by { assert DigitChar(1) == '1'; }
    assert IntToString(1) == "1";
    assert Repeat('0', 2) == "00" by { assert Repeat('0', 1) == "0"; }
    assert PadStart("1", 3, '0') == "001";
  }

  lemma SuffixAfterP(digits: string)
    ensures IdSuffix("P" + digits) == match ParseInt(digits) case NaN => 0 case Num(v) => v
  {
    assert RemoveFirst("P" + digits, 'P') == digits;
  }

  lemma ShortNegativeNumeral(n: int)
    requires -10 < n < 0
    ensures ParseInt(PadStart(IntToString(n), 3, '0')) == Num(0)
  {
    var c := DigitChar(-n);
    assert IntToString(n) == "-" + NatToDecimal(-n) == ['-', c];
    assert PadStart(IntToString(n), 3, '0') == ['0', '-', c];
    ZeroThenSign(c);
  }

  /** "0-…" reads as 0: the digit run stops at the sign. */
  lemma ZeroThenSign(c: char)
    ensures ParseInt(['0', '-', c]) == Num(0)
  {
    var digits := ['0', '-', c];
    assert !IsWhitespace(digits[0]);
    assert TrimStart(digits) == digits;
    assert ParseMagnitude(digits) == LeadingDigits(digits, 10);
    assert DigitRun(digits[1..], 10) == 0;
    assert DigitRun(digits, 10) == 1;
    assert digits[..1] == "0";
    assert DigitsValue("0", 10) == 0 by { assert "0"[..0] == []; }
  }

  /**
   * The suffix read back from the id made from `n` is at least `n`, and equal
   * to it when `n` is not negative.
   */
  lemma IdForSuffix(n: int)
    ensures IdSuffix(IdFor(n)) >= n
    ensures n >= 0 ==> IdSuffix(IdFor(n)) == n
  {
    var digits := PadStart(IntToString(n), 3, '0');
    SuffixAfterP(digits);
    if n >= 0 {
      assert IntToString(n) == NatToDecimal(n);
      ParsePaddedDecimal(n, 3);
    } else if n <= -10 {
      LongNegativeNumeral(n);
    } else {
      ShortNegativeNumeral(n);
    }
  }

  lemma LongNegativeNumeral(n: int)
    requires n <= -10
    ensures ParseInt(PadStart(IntToString(n), 3, '0')) == Num(n)
  {
    NegativeNumeralLength(n);
    var m: nat := -n;
    var s := "-" + NatToDecimal(m);
    NegativeNumeral(n);
    assert |s| >= 3;
    assert PadStart(s, 3, '0') == s;
    ParseNegativeDecimal(m);
  }

  lemma NegativeNumeral(n: int)
    requires n < 0
    ensures IntToString(n) == "-" + NatToDecimal(-n)
  {
  }

  lemma NegativeNumeralLength(n: int)
    requires n <= -10
    ensures |NatToDecimal(-n)| >= 2
  {
    var m: nat := -n;
    DecimalDigits(m / 10);
  }

  /** The new id's suffix is above every suffix in use. */
  lemma NextIdIsFresh(ps: seq<Patient>)
    ensures forall i :: 0 <= i < |ps| ==> IdSuffix(ps[i].id) < IdSuffix(NextId(ps))
  {
    IdForSuffix(NextNumber(ps));
  }
}

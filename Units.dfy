/**
 * The amount-with-unit parser behind the `--ram` and `--disk` options
 * (`parse_amount_units` in vms/manage.py): the first allowed unit the text
 * ends with is cut off, the rest must read as a positive integer.
 */
module Units {
  import opened Wrappers
  import opened Format
  import opened Records

  /** Each reason `parse_amount_units` raises `ValueError`. */
  datatype AmountError =
    | NoUnit(text: string)        // no allowed unit ends the text
    | NotANumber(text: string)    // `int()` rejects what precedes the unit
    | NotPositive(text: string)   // the amount is zero or negative

  /** Python's `s.endswith(u)`. */
  predicate EndsWith(s: string, u: string)
    ensures EndsWith(s, u) <==> exists p :: p + u == s
  {
    && |u| <= |s| && s[|s| - |u|..] == u
    && (assert s[..|s| - |u|] + u == s; true)
  }

  /** Python's `s[:-len(u)]`; for an empty `u` that is `s[:-0]`, the empty string. */
  function DropSuffix(s: string, u: string): (rest: string)
    requires EndsWith(s, u)
    ensures |u| > 0 ==> rest + u == s
  {
    if |u| == 0 then "" else s[..|s| - |u|]
  }

  /** What the loop does once unit `u` matched: read the amount, refuse it unless positive. */
  function ParseWithUnit(s: string, u: string): (r: Result<Amount, AmountError>)
    requires EndsWith(s, u)
    ensures r.Success? <==> exists amt :: ParseInt(DropSuffix(s, u)) == Some(amt) && amt > 0
    ensures r.Success? ==> r.value.unit == u && ParseInt(DropSuffix(s, u)) == Some(r.value.amt)
    ensures r.Failure? ==> r.error != NoUnit(s)
  {
    match ParseInt(DropSuffix(s, u))
    case None => Failure(NotANumber(s))
    case Some(amt) => if amt <= 0 then Failure(NotPositive(s)) else Success(Amount(u, amt))
  }

  /**
   * `parse_amount_units(s, allowed_units)`, the units listed in the order
   * the loop visits them. Only the first unit that ends `s` is tried: a
   * bad amount in front of it is an error even if a later unit would match.
   */
  function ParseAmountUnits(s: string, units: seq<string>): (r: Result<Amount, AmountError>)
    ensures r.Success? ==>
      && r.value.unit in units && EndsWith(s, r.value.unit)
      && ParseInt(DropSuffix(s, r.value.unit)) == Some(r.value.amt) && r.value.amt > 0
    ensures r == Failure(NoUnit(s)) <==> forall u :: u in units ==> !EndsWith(s, u)
  {
    if |units| == 0 then Failure(NoUnit(s))
    else if EndsWith(s, units[0]) then ParseWithUnit(s, units[0])
    else ParseAmountUnits(s, units[1..])
  }

  /** No allowed unit ends another one (so no duplicates either). */
  predicate SuffixFree(units: seq<string>)
  {
    forall i, j :: 0 <= i < |units| && 0 <= j < |units| && i != j ==> !EndsWith(units[i], units[j])
  }

  /** With suffix-free units, the one unit that ends `s` decides the result, whatever its place in the list. */
  lemma {:induction false} MatchedUnitDecides(s: string, units: seq<string>, u: string)
    requires SuffixFree(units) && u in units && EndsWith(s, u)
    ensures ParseAmountUnits(s, units) == ParseWithUnit(s, u)
  {
    if units[0] != u {
      assert u in units[1..];
      assert SuffixFree(units[1..]) by {
        forall i, j | 0 <= i < |units| - 1 && 0 <= j < |units| - 1 && i != j
          ensures !EndsWith(units[1..][i], units[1..][j])
        {
          assert units[1..][i] == units[i + 1] && units[1..][j] == units[j + 1];
        }
      }
      MatchedUnitDecides(s, units[1..], u);
    }
  }

  /** Both directions: over suffix-free units, parsing yields `a` exactly when `a`'s unit ends `s` and a positive `a.amt` precedes it. */
  lemma ParseAmountUnitsSpec(s: string, units: seq<string>, a: Amount)
    requires SuffixFree(units)
    ensures ParseAmountUnits(s, units) == Success(a) <==>
      && a.unit in units && EndsWith(s, a.unit)
      && ParseInt(DropSuffix(s, a.unit)) == Some(a.amt) && a.amt > 0
  {
    if a.unit in units && EndsWith(s, a.unit) {
      MatchedUnitDecides(s, units, a.unit);
    }
  }

  /** A Python set has no order: any listing of the same suffix-free units parses alike. */
  lemma OrderIndependent(s: string, units: seq<string>, reordered: seq<string>)
    requires SuffixFree(units) && SuffixFree(reordered)
    requires forall u :: u in units <==> u in reordered
    ensures ParseAmountUnits(s, units) == ParseAmountUnits(s, reordered)
  {
    if u :| u in units && EndsWith(s, u) {
      MatchedUnitDecides(s, units, u);
      MatchedUnitDecides(s, reordered, u);
    }
  }

  /** Writing a positive amount in decimal followed by an allowed non-empty unit parses back to that amount. */
  lemma RoundTrip(amt: int, u: string, units: seq<string>)
    requires amt > 0 && |u| > 0 && u in units && SuffixFree(units)
    ensures ParseAmountUnits(FormatDecimal(amt) + u, units) == Success(Amount(u, amt))
  {
    var s := FormatDecimal(amt) + u;
    assert s[|s| - |u|..] == u;
    assert DropSuffix(s, u) == FormatDecimal(amt);
    DecimalRoundTrip(amt);
    MatchedUnitDecides(s, units, u);
  }

  /** The units `--ram` accepts, `{"GiB", "MiB"}`. */
  const RAM_UNITS: seq<string> := ["GiB", "MiB"]

  /** The units `--disk` accepts, `{"G", "M"}`. */
  const DISK_UNITS: seq<string> := ["G", "M"]

  lemma UnitSetsSuffixFree()
    ensures SuffixFree(RAM_UNITS) && SuffixFree(DISK_UNITS)
  {
  }

  /** The `--ram` converter. */
  function Ram(s: string): (r: Result<Amount, AmountError>)
    ensures r.Success? ==> r.value.unit in {"GiB", "MiB"} && r.value.amt > 0
  {
    ParseAmountUnits(s, RAM_UNITS)
  }

  /** The `--disk` converter. */
  function Disk(s: string): (r: Result<Amount, AmountError>)
    ensures r.Success? ==> r.value.unit in {"G", "M"} && r.value.amt > 0
  {
    ParseAmountUnits(s, DISK_UNITS)
  }

  /** `--disk`'s default "2G" reads as two gigabytes. */
  lemma DiskDefaultParses()
    ensures Disk("2G") == Success(Amount("G", 2))
  {
    UnitSetsSuffixFree();
    RoundTrip(2, "G", DISK_UNITS);
    assert FormatDecimal(2) == "2";
  }

  /** `--ram 4GiB` reads as four GiB. */
  lemma RamExampleParses()
    ensures Ram("4GiB") == Success(Amount("GiB", 4))
  {
    UnitSetsSuffixFree();
    RoundTrip(4, "GiB", RAM_UNITS);
    assert FormatDecimal(4) == "4";
  }

  /** Zero, a missing unit and a non-number are all refused. */
  lemma RejectedAmounts()
    ensures Ram("0GiB") == Failure(NotPositive("0GiB"))
    ensures Disk("2T") == Failure(NoUnit("2T"))
    ensures Disk("xG") == Failure(NotANumber("xG"))
  {
    assert DropSuffix("0GiB", "GiB") == "0";
    assert DropSuffix("xG", "G") == "x";
  }
}

/**
 * Validation of a location typed as four strings: each is parsed as an
 * unsigned 32-bit decimal, then the cell is checked against the grid bounds.
 */
module Utils {
  import opened Common
  import opened Locations

  /** One more than the largest `u32`. */
  const U32Limit: nat := 0x1_0000_0000

  predicate IsDigit(c: char) {
    '0' <= c <= '9'
  }

  predicate AllDigits(s: string) {
    forall i :: 0 <= i < |s| ==> IsDigit(s[i])
  }

  /** The decimal value of a string of digits, most significant first. */
  function DigitsValue(s: string): nat
    requires AllDigits(s)
  {
    if s == [] then 0
    else DigitsValue(s[..|s| - 1]) * 10 + (s[|s| - 1] as int - '0' as int)
  }

  /** The body of a number after its optional `+` sign. */
  function Unsigned(s: string): string {
    if |s| > 0 && s[0] == '+' then s[1..] else s
  }

  /**
   * `str::parse::<u32>`: an optional `+`, then one or more ASCII digits whose
   * value fits in 32 bits. No whitespace is trimmed and no `-` is accepted.
   */
  function ParseU32(s: string): (r: Option<nat>)
    ensures r.Some? <==> |Unsigned(s)| > 0 && AllDigits(Unsigned(s)) && DigitsValue(Unsigned(s)) < U32Limit
    ensures r.Some? ==> r.value == DigitsValue(Unsigned(s)) && r.value < U32Limit
    ensures |s| > 0 && s[0] != '+' && !IsDigit(s[0]) ==> r.None?
  {
    var body := Unsigned(s);
    if |body| == 0 || !AllDigits(body) then None
    else
      var v := DigitsValue(body);
      if v < U32Limit then Some(v) else None
  }

  /** The decimal digits of `n`, without leading zeros. */
  function ShowNat(n: nat): (s: string)
    ensures |s| > 0 && AllDigits(s)
    decreases n
  {
    var digit := ['0' + (n % 10) as char];
    if n < 10 then digit else ShowNat(n / 10) + digit
  }

  /** Reading back the digits of `n` gives `n`. */
  lemma {:induction false} ShowNatValue(n: nat)
    ensures DigitsValue(ShowNat(n)) == n
    decreases n
  {
    if n >= 10 {
      ShowNatValue(n / 10);
      var s := ShowNat(n);
      assert s[..|s| - 1] == ShowNat(n / 10);
    }
  }

  /** Every number that fits in 32 bits parses back from its decimal form. */
  lemma ParseShowRoundTrip(n: nat)
    requires n < U32Limit
    ensures ParseU32(ShowNat(n)) == Some(n)
    ensures ParseU32("+" + ShowNat(n)) == Some(n)
  {
    ShowNatValue(n);
    assert Unsigned("+" + ShowNat(n)) == ShowNat(n);
  }

  /** A leading zero does not change the value of a string of digits. */
  lemma {:induction false} LeadingZeroValue(s: string)
    requires AllDigits(s)
    ensures AllDigits("0" + s) && DigitsValue("0" + s) == DigitsValue(s)
    decreases |s|
  {
    if s != [] {
      LeadingZeroValue(s[..|s| - 1]);
      assert ("0" + s)[..|s|] == "0" + s[..|s| - 1];
    }
  }

  /** Leading zeros are accepted and ignored. */
  lemma ParseIgnoresLeadingZero(s: string)
    requires |s| > 0 && AllDigits(s)
    ensures ParseU32("0" + s) == ParseU32(s)
  {
    LeadingZeroValue(s);
  }

  /** Why a typed location was refused. */
  datatype InputError = InvalidRow | InvalidShelf | InvalidLevel | InvalidZone | OutOfBounds

  /**
   * `validate_location_input`: parse row, shelf, level and zone in that order,
   * failing on the first that does not parse; then refuse any coordinate at
   * or past its bound.
   */
  function ValidateLocationInput(row: string, shelf: string, level: string, zone: string, d: Dims)
    : (r: Result<Location, InputError>)
    ensures r.Ok? ==> InBounds(r.value, d) &&
                      ParseU32(row) == Some(r.value.row) && ParseU32(shelf) == Some(r.value.shelf) &&
                      ParseU32(level) == Some(r.value.level) && ParseU32(zone) == Some(r.value.zone)
    ensures r == Err(InvalidRow) <==> ParseU32(row).None?
    ensures r == Err(InvalidShelf) <==> ParseU32(row).Some? && ParseU32(shelf).None?
    ensures r == Err(InvalidLevel) <==> ParseU32(row).Some? && ParseU32(shelf).Some? && ParseU32(level).None?
    ensures r == Err(InvalidZone) <==>
              ParseU32(row).Some? && ParseU32(shelf).Some? && ParseU32(level).Some? && ParseU32(zone).None?
    ensures r == Err(OutOfBounds) <==>
              ParseU32(row).Some? && ParseU32(shelf).Some? && ParseU32(level).Some? && ParseU32(zone).Some? &&
              !InBounds(Location(ParseU32(row).value, ParseU32(shelf).value, ParseU32(level).value,
                                 ParseU32(zone).value), d)
  {
    var rowNum := ParseU32(row);
    if rowNum.None? then Err(InvalidRow)
    else
      var shelfNum := ParseU32(shelf);
      if shelfNum.None? then Err(InvalidShelf)
      else
        var levelNum := ParseU32(level);
        if levelNum.None? then Err(InvalidLevel)
        else
          var zoneNum := ParseU32(zone);
          if zoneNum.None? then Err(InvalidZone)
          else
            var l := Location(rowNum.value, shelfNum.value, levelNum.value, zoneNum.value);
            if l.row >= d.rows || l.shelf >= d.shelves || l.level >= d.levels || l.zone >= d.zones then
              Err(OutOfBounds)
            else Ok(l)
  }

  /** A cell of the grid, typed in decimal, is accepted as exactly that cell. */
  lemma ValidateShownLocation(l: Location, d: Dims)
    requires l.row < U32Limit && l.shelf < U32Limit && l.level < U32Limit && l.zone < U32Limit
    ensures ValidateLocationInput(ShowNat(l.row), ShowNat(l.shelf), ShowNat(l.level), ShowNat(l.zone), d) ==
            if InBounds(l, d) then Ok(l) else Err(OutOfBounds)
  {
    ParseShowRoundTrip(l.row);
    ParseShowRoundTrip(l.shelf);
    ParseShowRoundTrip(l.level);
    ParseShowRoundTrip(l.zone);
  }
}

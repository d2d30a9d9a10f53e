/**
 * `StatsController#selected_year`: which of the offered years the page
 * shows, given the year query parameter.
 */
module StatsController {
  import opened Wrappers
  import opened Text

  /** `param_value.to_i`: a missing parameter (`nil.to_i`) is 0. */
  function YearParam(param: Option<string>): int {
    if param.None? then 0 else RubyToI(param.value)
  }

  /**
   * The requested year when it is offered; otherwise the first offered
   * year; otherwise, with nothing offered, the current year. With a
   * non-empty list the result is always one of the offered years.
   */
  function SelectedYear(available: seq<int>, param: Option<string>, currentYear: int): (y: int)
    ensures YearParam(param) in available ==> y == YearParam(param)
    ensures YearParam(param) !in available && available != [] ==> y == available[0]
    ensures available == [] ==> y == currentYear
    ensures available != [] ==> y in available
  {
    var requested := YearParam(param);
    if requested in available then requested
    else if available != [] then available[0]
    else currentYear
  }

  /** Asking for an offered year by its decimal text selects that year. */
  lemma SelectingAnOfferedYear(available: seq<int>, year: int, currentYear: int)
    requires year in available
    ensures SelectedYear(available, Some(IntToDecimal(year)), currentYear) == year
  {
    RubyToIOfIntToDecimal(year);
  }

  /**
   * A year written with Ruby's "0d" or "0D" radix prefix, with or without a
   * '+' sign, selects that year too.
   */
  lemma SelectingAPrefixedYear(available: seq<int>, sign: string, letter: char, year: nat, currentYear: int)
    requires year in available
    requires OptionalSign(sign) && sign != "-"
    requires letter == 'd' || letter == 'D'
    ensures SelectedYear(available, Some(sign + ['0', letter] + NatToDecimal(year)), currentYear) == year
  {
    DecimalOfNatToDecimal(year);
    DecimalPrefixSkipped(sign, letter, NatToDecimal(year));
  }

  /**
   * A missing parameter, or one with no digit after its white space and
   * sign (an empty `?heatmap_year=` among them), is read as 0 and falls
   * through to the first offered year unless year 0 is offered.
   */
  lemma UnreadableParamFallsThrough(available: seq<int>, param: Option<string>, currentYear: int)
    requires param.Some? ==> NoLeadingNumeral(param.value)
    requires 0 !in available && available != []
    ensures SelectedYear(available, param, currentYear) == available[0]
  {
  }
}

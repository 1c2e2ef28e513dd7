/**
 * The match decision inside queryJson: presence only for an empty value, a
 * numeric range for a number tested against a value with '-', and
 * case-insensitive text equality otherwise.
 */
module Matcher {
  import opened Wrappers
  import opened JsonValue
  import Text

  /**
   * What happens to one element: it matches, it does not, or testing it raises
   * the ArrayIndexOutOfBoundsException that the range test does not catch.
   */
  datatype Decision = Match | NoMatch | IndexOutOfBounds

  /**
   * The try block of the range test: split on '-', fetch and parse piece 0,
   * then fetch and parse piece 1, then test both bounds inclusively. A bound
   * that does not parse is a caught NumberFormatException (no match); a piece
   * that is not there is an uncaught out-of-bounds access.
   */
  function RangeTest(t: int, value: string): Decision {
    var range := Text.Split(value, '-');
    if |range| == 0 then IndexOutOfBounds
    else match Text.ParseDecimal(range[0])
      case None => NoMatch
      case Some(min) =>
        if |range| == 1 then IndexOutOfBounds
        else match Text.ParseDecimal(range[1])
          case None => NoMatch
          case Some(max) => if min <= t && t <= max then Match else NoMatch
  }

  /** The decision for one element's target (absent is None) under the trimmed value. */
  function Decide(target: Option<Json>, value: string): (d: Decision)
    ensures target.None? ==> d == NoMatch
    ensures target.Some? && value == "" ==> d == Match
    ensures d == IndexOutOfBounds ==> target.Some? && IsNumber(target.value) && '-' in value
  {
    if target.None? then NoMatch
    else if value == "" then Match
    else if IsNumber(target.value) && '-' in value then RangeTest(target.value.n, value)
    else if Text.EqualsIgnoreCase(AsText(target.value), value) then Match
    else NoMatch
  }

  /**
   * Every outcome of a number tested against a value with '-': the exception
   * comes exactly when no piece is there, or piece 0 parses and piece 1 is
   * not there; a fetched piece that does not parse is no match; and with
   * both bounds parsed the test is inclusive.
   */
  lemma RangeOutcomes(t: int, value: string)
    requires '-' in value
    ensures var range := Text.Split(value, '-');
      && ((Decide(Some(Num(t)), value) == IndexOutOfBounds)
            <==> (|range| == 0 || (|range| == 1 && Text.ParseDecimal(range[0]).Some?)))
      && (|range| >= 1 && Text.ParseDecimal(range[0]).None? ==> Decide(Some(Num(t)), value) == NoMatch)
      && ((|range| >= 2 && Text.ParseDecimal(range[0]).Some? && Text.ParseDecimal(range[1]).None?)
            ==> Decide(Some(Num(t)), value) == NoMatch)
      && ((|range| >= 2 && Text.ParseDecimal(range[0]).Some? && Text.ParseDecimal(range[1]).Some?)
            ==> ((Decide(Some(Num(t)), value) == Match)
                 <==> (Text.ParseDecimal(range[0]).value <= t <= Text.ParseDecimal(range[1]).value)))
  {
    assert value != "";
  }

  /** A value that splits into two pieces that parse as lo and hi is the inclusive range test. */
  lemma TwoBounds(t: int, value: string, lo: int, hi: int)
    requires '-' in value
    requires var range := Text.Split(value, '-');
      |range| == 2 && Text.ParseDecimal(range[0]) == Some(lo) && Text.ParseDecimal(range[1]) == Some(hi)
    ensures Decide(Some(Num(t)), value) == if lo <= t <= hi then Match else NoMatch
  {
    assert value != "";
  }

  /** A numeral, '-', and an upper bound that does not parse (say "20-abc" or "20-3x"): no match, no exception. */
  lemma BadUpperBoundDoesNotMatch(t: int, n: nat, b: string)
    requires b != "" && '-' !in b && Text.ParseDecimal(b).None?
    ensures Decide(Some(Num(t)), Text.NatToString(n) + "-" + b) == NoMatch
  {
    var a := Text.NatToString(n);
    var value := a + "-" + b;
    Text.NatToStringHasNoMinus(n);
    Text.SplitPair(a, b, '-');
    assert value == a + ['-'] + b;
    assert '-' in value by { assert value[|a|] == '-'; }
    Text.ParseNatToString(n);
    var range := Text.Split(value, '-');
    assert range[0] == a && range[1] == b && |range| == 2;
    assert RangeTest(t, value) == NoMatch;
  }

  /** "lo-hi" written with two numerals: the number matches exactly when lo <= t <= hi. */
  lemma RangeIsInclusive(t: int, lo: nat, hi: nat)
    ensures Decide(Some(Num(t)), Text.NatToString(lo) + "-" + Text.NatToString(hi))
         == if lo <= t <= hi then Match else NoMatch
  {
    var a, b := Text.NatToString(lo), Text.NatToString(hi);
    var value := a + "-" + b;
    Text.NatToStringHasNoMinus(lo);
    Text.NatToStringHasNoMinus(hi);
    Text.SplitPair(a, b, '-');
    assert value == a + ['-'] + b;
    assert '-' in value by { assert value[|a|] == '-'; }
    Text.ParseNatToString(lo);
    Text.ParseNatToString(hi);
    TwoBounds(t, value, lo, hi);
  }

  /**
   * Outside the range branch the decision is case-insensitive equality of the
   * target's text with the value, and it never fails.
   */
  lemma TextBranch(j: Json, value: string)
    requires value != ""
    requires !IsNumber(j) || '-' !in value
    ensures Decide(Some(j), value) != IndexOutOfBounds
    ensures Decide(Some(j), value) == Match <==> Text.Lower(AsText(j)) == Text.Lower(value)
  {
    Text.EqualsIgnoreCaseIsLowerEquality(AsText(j), value);
  }

  /** A non-negative number matches its own decimal text. */
  lemma NumberMatchesItsText(n: nat)
    ensures Decide(Some(Num(n)), Text.IntToString(n)) == Match
  {
    Text.NatToStringHasNoMinus(n);
    var s := Text.IntToString(n);
    assert forall i :: 0 <= i < |s| ==> Text.CharEqualsIgnoreCase(s[i], s[i]);
  }

  /**
   * A value that starts with '-' and does not end with one never matches a
   * number: piece 0 is empty and does not parse. So "-5-10", and the text of
   * any negative number, match nothing.
   */
  lemma LeadingMinusNeverMatches(t: int, value: string)
    requires |value| >= 2 && value[0] == '-' && value[|value| - 1] != '-'
    ensures Decide(Some(Num(t)), value) == NoMatch
  {
    var rest := value[1..];
    assert value == [] + ['-'] + rest;
    Text.SplitAllAfterHead([], rest, '-');
    Text.SplitAllLastPiece(rest, '-');
    var all := Text.SplitAll(value, '-');
    assert all == [""] + Text.SplitAll(rest, '-');
    assert all[|all| - 1] != "";
    assert Text.DropTrailingEmpty(all) == all;
    assert Text.Split(value, '-')[0] == "";
  }

  lemma NegativeNumberNotMatchedByItsText(n: int)
    requires n < 0
    ensures Decide(Some(Num(n)), Text.IntToString(n)) == NoMatch
  {
    var s := Text.IntToString(n);
    assert s == "-" + Text.NatToString(-n);
    LeadingMinusNeverMatches(n, s);
  }

  lemma NegativeLowerBoundNeverMatches(t: int)
    ensures Decide(Some(Num(t)), "-5-10") == NoMatch
  {
    LeadingMinusNeverMatches(t, "-5-10");
  }

  /** A numeral followed by '-' (say "20-") leaves one piece: fetching piece 1 fails. */
  lemma NumeralThenDashFails(t: int, n: nat)
    ensures Decide(Some(Num(t)), Text.NatToString(n) + "-") == IndexOutOfBounds
  {
    var a := Text.NatToString(n);
    var value := a + "-";
    Text.NatToStringHasNoMinus(n);
    Text.SplitAllTrailingSep(a, '-');
    Text.SplitAllNoSep(a, '-');
    assert value[|a|] == '-';
    assert Text.SplitAll(value, '-') == [a, ""];
    assert Text.DropTrailingEmpty([a, ""]) == [a] by {
      assert [a, ""][..1] == [a];
    }
    Text.ParseIntToString(n);
  }

  /** A value of dashes only (say "-") leaves no piece at all: fetching piece 0 fails. */
  lemma DashesOnlyFails(t: int, value: string)
    requires value != "" && forall i :: 0 <= i < |value| ==> value[i] == '-'
    ensures Decide(Some(Num(t)), value) == IndexOutOfBounds
  {
    assert value[0] == '-';
    Text.SplitAllOnlySeps(value, '-');
    assert Text.Split(value, '-') == [];
  }

  /** A non-numeral followed by '-' (say "abc-") fails to parse first: no match, no failure. */
  lemma NonNumeralThenDashDoesNotMatch(t: int, a: string)
    requires a != "" && '-' !in a && Text.ParseDecimal(a).None?
    ensures Decide(Some(Num(t)), a + "-") == NoMatch
  {
    var value := a + "-";
    Text.SplitAllTrailingSep(a, '-');
    Text.SplitAllNoSep(a, '-');
    assert value[|a|] == '-';
    assert Text.SplitAll(value, '-') == [a, ""];
    assert Text.DropTrailingEmpty([a, ""]) == [a] by {
      assert [a, ""][..1] == [a];
    }
  }

  /** A string target is compared as text even when the value holds '-'. */
  lemma StringWithDashComparedAsText(s: string, value: string)
    requires value != ""
    ensures Decide(Some(Str(s)), value) == Match <==> Text.Lower(s) == Text.Lower(value)
  {
    TextBranch(Str(s), value);
  }

  lemma CaseInsensitiveExample()
    ensures Decide(Some(Str("Apple")), "apple") == Match
    ensures Decide(Some(Str("Apple")), "banana") == NoMatch
  {
    StringWithDashComparedAsText("Apple", "apple");
    assert Text.Lower("Apple") == "apple";
    assert Text.Lower("apple") == "apple";
  }

  /** JSON null is present: an empty value matches it, and so does the text "null" in any case. */
  lemma NullIsPresent(value: string)
    requires value == "" || Text.Lower(value) == "null"
    ensures Decide(Some(Null), value) == Match
  {
    if value != "" {
      assert Text.Lower("null") == "null";
      TextBranch(Null, value);
    }
  }
}

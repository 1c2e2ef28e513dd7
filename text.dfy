/**
 * The java.lang.String operations the query engine relies on: trim, split on a
 * one-character separator, case-insensitive equality (ASCII folding), decimal
 * parsing and rendering of integers, and the order of compareTo.
 */
module Text {
  import opened Wrappers

  // ---------------------------------------------------------------------------
  // trim()

  /** String.trim() removes every leading and trailing char at or below U+0020. */
  predicate IsBlank(c: char) {
    c <= ' '
  }

  function TrimStart(s: string): (r: string)
    ensures |r| <= |s| && r == s[|s| - |r|..]
    ensures r == [] || !IsBlank(r[0])
    ensures forall i :: 0 <= i < |s| - |r| ==> IsBlank(s[i])
  {
    if s != [] && IsBlank(s[0]) then TrimStart(s[1..]) else s
  }

  function TrimEnd(s: string): (r: string)
    ensures |r| <= |s| && r == s[..|r|]
    ensures r == [] || !IsBlank(r[|r| - 1])
    ensures forall i :: |r| <= i < |s| ==> IsBlank(s[i])
  {
    if s != [] && IsBlank(s[|s| - 1]) then TrimEnd(s[..|s| - 1]) else s
  }

  /** r is s with i chars cut before it and the rest cut after it, all of them blank. */
  predicate CutAt(s: string, i: int, r: string) {
    && 0 <= i <= |s| - |r|
    && r == s[i..i + |r|]
    && (forall k :: 0 <= k < i ==> IsBlank(s[k]))
    && (forall k :: i + |r| <= k < |s| ==> IsBlank(s[k]))
  }

  /** String.trim(): the result starts and ends with a non-blank char; see TrimCutsOnlyBlanks for what was cut. */
  function Trim(s: string): (r: string)
    ensures |r| <= |s|
    ensures r == [] || (!IsBlank(r[0]) && !IsBlank(r[|r| - 1]))
    ensures r == [] <==> forall i :: 0 <= i < |s| ==> IsBlank(s[i])
  {
    var t := TrimStart(s);
    assert t == [] ==> forall i :: 0 <= i < |s| ==> IsBlank(s[i]);
    assert t != [] ==> !IsBlank(s[|s| - |t|]);
    TrimEnd(t)
  }

  /**
   * The trimmed text is the slice of the input left after cutting blanks
   * only, before and after it. With the non-blank ends of Trim's own
   * contract, this fixes the result.
   */
  lemma TrimCutsOnlyBlanks(s: string)
    ensures exists i :: CutAt(s, i, Trim(s))
  {
    var t := TrimStart(s);
    assert Trim(s) == TrimEnd(t);
    CutsCompose(s, t, TrimEnd(t));
  }

  /** Cutting leading blanks from s to get t, then trailing blanks from t to get r, cuts r out of s. */
  lemma CutsCompose(s: string, t: string, r: string)
    requires |t| <= |s| && t == s[|s| - |t|..]
    requires forall k :: 0 <= k < |s| - |t| ==> IsBlank(s[k])
    requires |r| <= |t| && r == t[..|r|]
    requires forall k :: |r| <= k < |t| ==> IsBlank(t[k])
    ensures CutAt(s, |s| - |t|, r)
  {
    var i := |s| - |t|;
    assert forall k :: i <= k < |s| ==> s[k] == t[k - i];
  }

  /** Only the blanks around the text go: " ab " trims to "ab". */
  lemma TrimExample()
    ensures Trim(" ab ") == "ab"
  {
    assert " ab "[1..] == "ab ";
    assert TrimStart("ab ") == "ab ";
    assert TrimStart(" ab ") == "ab ";
    assert "ab "[..2] == "ab";
    assert TrimEnd("ab") == "ab";
    assert TrimEnd("ab ") == "ab";
  }

  /** A string that already starts and ends with a non-blank char is its own trim. */
  lemma TrimKeeps(s: string)
    requires s == [] || (!IsBlank(s[0]) && !IsBlank(s[|s| - 1]))
    ensures Trim(s) == s
  {
  }

  /** Trimming twice is trimming once. */
  lemma TrimIdempotent(s: string)
    ensures Trim(Trim(s)) == Trim(s)
  {
    TrimKeeps(Trim(s));
  }

  // ---------------------------------------------------------------------------
  // split(sep)

  /** The pieces glued back together with `sep` between them. */
  function JoinWith(pieces: seq<string>, sep: char): string
    requires |pieces| >= 1
  {
    if |pieces| == 1 then pieces[0] else pieces[0] + [sep] + JoinWith(pieces[1..], sep)
  }

  /**
   * Every piece between occurrences of `sep`, empty ones included (String.split
   * with a negative limit). Joining the pieces gives back the string.
   */
  function SplitAll(s: string, sep: char): (r: seq<string>)
    ensures |r| >= 1
    ensures forall i :: 0 <= i < |r| ==> sep !in r[i]
    ensures JoinWith(r, sep) == s
  {
    if s == [] then [""]
    else
      var rest := SplitAll(s[1..], sep);
      if s[0] == sep then
        assert [""] + rest == [""] + rest && ([""] + rest)[1..] == rest;
        [""] + rest
      else
        var r := [[s[0]] + rest[0]] + rest[1..];
        assert r[1..] == rest[1..];
        assert s == [s[0]] + s[1..];
        r
  }

  /** Drops the empty pieces at the end, as String.split with limit 0 does. */
  function DropTrailingEmpty(pieces: seq<string>): (r: seq<string>)
    ensures r <= pieces
    ensures r == [] || r[|r| - 1] != ""
    ensures forall i :: |r| <= i < |pieces| ==> pieces[i] == ""
  {
    if pieces == [] then []
    else if pieces[|pieces| - 1] == "" then DropTrailingEmpty(pieces[..|pieces| - 1])
    else pieces
  }

  /**
   * String.split for a regular expression that matches the single char `sep`
   * (limit 0): the whole string when `sep` does not occur, otherwise every
   * piece between separators with the trailing empty ones removed.
   */
  function Split(s: string, sep: char): (r: seq<string>)
    ensures forall i :: 0 <= i < |r| ==> sep !in r[i]
    ensures sep !in s ==> r == [s]
    ensures sep in s ==> r <= SplitAll(s, sep) && (r == [] || r[|r| - 1] != "")
    ensures sep in s ==> forall i :: |r| <= i < |SplitAll(s, sep)| ==> SplitAll(s, sep)[i] == ""
  {
    if sep !in s then [s] else DropTrailingEmpty(SplitAll(s, sep))
  }

  /** A string without the separator is one piece. */
  lemma {:induction false} SplitAllNoSep(s: string, sep: char)
    requires sep !in s
    ensures SplitAll(s, sep) == [s]
  {
    if s != [] {
      SplitAllNoSep(s[1..], sep);
      assert s == [s[0]] + s[1..];
    }
  }

  /** A separator right after a separator-free head starts a new piece. */
  lemma {:induction false} SplitAllAfterHead(a: string, b: string, sep: char)
    requires sep !in a
    ensures SplitAll(a + [sep] + b, sep) == [a] + SplitAll(b, sep)
  {
    if a == [] {
      assert a + [sep] + b == [sep] + b;
      assert ([sep] + b)[1..] == b;
    } else {
      var s := a + [sep] + b;
      assert s[0] == a[0] && s[1..] == a[1..] + [sep] + b;
      SplitAllAfterHead(a[1..], b, sep);
      assert [a[0]] + a[1..] == a;
    }
  }

  /** Splitting is the inverse of joining separator-free pieces. */
  lemma {:induction false} SplitAllJoin(pieces: seq<string>, sep: char)
    requires |pieces| >= 1
    requires forall i :: 0 <= i < |pieces| ==> sep !in pieces[i]
    ensures SplitAll(JoinWith(pieces, sep), sep) == pieces
  {
    if |pieces| == 1 {
      SplitAllNoSep(pieces[0], sep);
    } else {
      SplitAllJoin(pieces[1..], sep);
      SplitAllAfterHead(pieces[0], JoinWith(pieces[1..], sep), sep);
      assert [pieces[0]] + pieces[1..] == pieces;
    }
  }

  /** A separator at the very end adds one empty piece. */
  lemma {:induction false} SplitAllTrailingSep(s: string, sep: char)
    ensures SplitAll(s + [sep], sep) == SplitAll(s, sep) + [""]
  {
    if s == [] {
      assert s + [sep] == [sep];
      assert [sep][1..] == [];
    } else {
      var t := s + [sep];
      assert t[0] == s[0] && t[1..] == s[1..] + [sep];
      SplitAllTrailingSep(s[1..], sep);
    }
  }

  /** A string made of separators only splits into empty pieces. */
  lemma {:induction false} SplitAllOnlySeps(s: string, sep: char)
    requires forall i :: 0 <= i < |s| ==> s[i] == sep
    ensures forall i :: 0 <= i < |SplitAll(s, sep)| ==> SplitAll(s, sep)[i] == ""
  {
    if s != [] {
      SplitAllOnlySeps(s[1..], sep);
    }
  }

  /** When the string does not end with the separator, its last piece is not empty. */
  lemma {:induction false} SplitAllLastPiece(s: string, sep: char)
    requires s != [] && s[|s| - 1] != sep
    ensures SplitAll(s, sep)[|SplitAll(s, sep)| - 1] != ""
  {
    if |s| > 1 {
      SplitAllLastPiece(s[1..], sep);
    }
  }

  /** Two separator-free pieces around one separator split back into those two. */
  lemma SplitPair(a: string, b: string, sep: char)
    requires sep !in a && sep !in b && b != ""
    ensures Split(a + [sep] + b, sep) == [a, b]
  {
    var s := a + [sep] + b;
    assert s == JoinWith([a, b], sep);
    SplitAllJoin([a, b], sep);
    assert s[|a|] == sep;
    assert DropTrailingEmpty([a, b]) == [a, b];
  }

  // ---------------------------------------------------------------------------
  // equalsIgnoreCase

  function UpperChar(c: char): char {
    if 'a' <= c <= 'z' then (c as int - 32) as char else c
  }

  function LowerChar(c: char): char {
    if 'A' <= c <= 'Z' then (c as int + 32) as char else c
  }

  /** regionMatches(true, ...) per char: equal, equal upper-cased, or equal lower-cased after that. */
  predicate CharEqualsIgnoreCase(a: char, b: char) {
    a == b || UpperChar(a) == UpperChar(b) || LowerChar(UpperChar(a)) == LowerChar(UpperChar(b))
  }

  /** String.equalsIgnoreCase, with ASCII case mapping. */
  predicate EqualsIgnoreCase(a: string, b: string) {
    |a| == |b| && forall i :: 0 <= i < |a| ==> CharEqualsIgnoreCase(a[i], b[i])
  }

  /** The string lower-cased char by char (ASCII). */
  function Lower(s: string): (r: string)
    ensures |r| == |s|
    ensures forall i :: 0 <= i < |s| ==> r[i] == LowerChar(s[i])
  {
    if s == [] then [] else [LowerChar(s[0])] + Lower(s[1..])
  }

  lemma CharEqualsIgnoreCaseIsLowerEquality(a: char, b: char)
    ensures CharEqualsIgnoreCase(a, b) <==> LowerChar(a) == LowerChar(b)
  {
  }

  /** Case-insensitive equality is equality of the lower-cased strings. */
  lemma EqualsIgnoreCaseIsLowerEquality(a: string, b: string)
    ensures EqualsIgnoreCase(a, b) <==> Lower(a) == Lower(b)
  {
    if Lower(a) == Lower(b) {
      forall i | 0 <= i < |a|
        ensures CharEqualsIgnoreCase(a[i], b[i])
      {
        assert Lower(a)[i] == Lower(b)[i];
        CharEqualsIgnoreCaseIsLowerEquality(a[i], b[i]);
      }
    }
    if EqualsIgnoreCase(a, b) {
      forall i | 0 <= i < |a|
        ensures Lower(a)[i] == Lower(b)[i]
      {
        CharEqualsIgnoreCaseIsLowerEquality(a[i], b[i]);
      }
    }
  }

  // ---------------------------------------------------------------------------
  // Decimal integers: Double.parseDouble on integer literals, Integer.toString

  predicate IsDigit(c: char) {
    '0' <= c <= '9'
  }

  predicate AllDigits(s: string) {
    forall i :: 0 <= i < |s| ==> IsDigit(s[i])
  }

  function DigitChar(d: nat): char
    requires d < 10
  {
    ('0' as int + d) as char
  }

  /** The value of a string of decimal digits, most significant first. */
  function DigitsValue(s: string): nat
    requires AllDigits(s)
  {
    if s == [] then 0 else 10 * DigitsValue(s[..|s| - 1]) + (s[|s| - 1] as int - '0' as int)
  }

  /** The canonical decimal numeral of n: digits only, no leading zero. */
  function NatToString(n: nat): (r: string)
    ensures |r| >= 1 && AllDigits(r)
    ensures DigitsValue(r) == n
    ensures r[0] == '0' ==> n == 0
  {
    if n < 10 then [DigitChar(n)]
    else
      var h := NatToString(n / 10);
      var r := h + [DigitChar(n % 10)];
      assert r[..|r| - 1] == h;
      r
  }

  /** Integer.toString: a minus sign before the numeral of a negative number. */
  function IntToString(i: int): string {
    if i < 0 then "-" + NatToString(-i) else NatToString(i)
  }

  /**
   * Double.parseDouble restricted to integer literals: surrounding blanks are
   * ignored, one optional sign, then at least one decimal digit; anything else
   * is a NumberFormatException, here None.
   */
  function ParseDecimal(s: string): (r: Option<int>)
    ensures r.Some? ==> Trim(s) != ""
  {
    var t := Trim(s);
    var negative := |t| > 0 && t[0] == '-';
    var digits := if |t| > 0 && (t[0] == '+' || t[0] == '-') then t[1..] else t;
    if digits != [] && AllDigits(digits) then
      var magnitude: int := DigitsValue(digits);
      Some(if negative then -magnitude else magnitude)
    else None
  }

  /** Parsing the rendering of a number gives the number back. */
  lemma ParseIntToString(i: int)
    ensures ParseDecimal(IntToString(i)) == Some(i)
  {
    var s := IntToString(i);
    var n: nat := if i < 0 then -i else i;
    var numeral := NatToString(n);
    assert !IsBlank(s[0]) && !IsBlank(s[|s| - 1]);
    TrimKeeps(s);
    if i < 0 {
      assert s[1..] == numeral;
    }
  }

  /** Parsing a numeral gives its value. */
  lemma ParseNatToString(n: nat)
    ensures ParseDecimal(NatToString(n)) == Some(n)
  {
    ParseIntToString(n);
    assert IntToString(n) == NatToString(n);
  }

  /** A numeral never contains a minus sign. */
  lemma NatToStringHasNoMinus(n: nat)
    ensures '-' !in NatToString(n)
  {
    var r := NatToString(n);
    assert forall i :: 0 <= i < |r| ==> r[i] != '-';
  }

  // ---------------------------------------------------------------------------
  // compareTo

  /**
   * The position of a char in UTF-16 code-unit order. A char above U+FFFF is
   * written as a surrogate pair whose first unit lies in D800-DBFF: above
   * every char below U+D800 and below every char from U+E000 to U+FFFF, and
   * ordered among themselves as their scalar values. So E000-FFFF move up
   * past all supplementary chars.
   */
  function Utf16Rank(c: char): int {
    if 0xE000 <= c as int < 0x10000 then c as int + 0x200000 else c as int
  }

  /** Two different chars have different ranks. */
  lemma Utf16RankInjective(c: char, d: char)
    requires c != d
    ensures Utf16Rank(c) != Utf16Rank(d)
  {
  }

  /**
   * String.compareTo(a, b) < 0: the first differing char decides, by its
   * UTF-16 code units, and a proper prefix comes first. Strings equal up to
   * a char index are equal up to the matching code-unit index, so deciding
   * at the first differing char is deciding at the first differing unit.
   */
  predicate Less(a: string, b: string)
    decreases |a|
  {
    if a == [] then b != []
    else if b == [] then false
    else if a[0] != b[0] then Utf16Rank(a[0]) < Utf16Rank(b[0])
    else Less(a[1..], b[1..])
  }

  /** A char outside the Basic Multilingual Plane sorts before U+FF21, because its first code unit is 0xD83D. */
  lemma SupplementaryBeforeFullwidth()
    ensures Less("\U{1F600}", "\U{FF21}")
    ensures !Less("\U{FF21}", "\U{1F600}")
  {
  }

  lemma {:induction false} LessIrreflexive(a: string)
    ensures !Less(a, a)
  {
    if a != [] {
      LessIrreflexive(a[1..]);
    }
  }

  lemma {:induction false} LessTransitive(a: string, b: string, c: string)
    requires Less(a, b) && Less(b, c)
    ensures Less(a, c)
  {
    if a != [] && b != [] && c != [] && a[0] == b[0] && b[0] == c[0] {
      LessTransitive(a[1..], b[1..], c[1..]);
    }
  }

  lemma {:induction false} LessTotal(a: string, b: string)
    requires a != b
    ensures Less(a, b) || Less(b, a)
  {
    if a != [] && b != [] && a[0] == b[0] {
      assert a == [a[0]] + a[1..] && b == [b[0]] + b[1..];
      LessTotal(a[1..], b[1..]);
    } else if a != [] && b != [] {
      Utf16RankInjective(a[0], b[0]);
    }
  }

  /** Strictly increasing under compareTo: sorted and free of duplicates. */
  predicate StrictlySorted(s: seq<string>) {
    forall i, j :: 0 <= i < j < |s| ==> Less(s[i], s[j])
  }

  lemma StrictlySortedDistinct(s: seq<string>)
    requires StrictlySorted(s)
    ensures forall i, j :: 0 <= i < |s| && 0 <= j < |s| && i != j ==> s[i] != s[j]
  {
    forall i, j | 0 <= i < |s| && 0 <= j < |s| && i != j
      ensures s[i] != s[j]
    {
      if i < j { LessIrreflexive(s[i]); } else { LessIrreflexive(s[j]); }
    }
  }
}

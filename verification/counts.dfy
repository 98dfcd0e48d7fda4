/**
 * Cleaning of a count cell: the census tables print counts with thousands
 * separators ("1,234,567"); the dashboard removes every ',' and reads what is
 * left as a number. Here the number is a decimal natural, and a cell whose
 * remaining text is not a non-empty run of decimal digits is a parse error.
 */
module Counts {

  datatype Option<T> = None | Some(value: T)

  predicate IsDigit(c: char) {
    '0' <= c <= '9'
  }

  predicate AllDigits(s: string) {
    forall i :: 0 <= i < |s| ==> IsDigit(s[i])
  }

  function DigitValue(c: char): (d: nat)
    requires IsDigit(c)
    ensures d < 10
  {
    (c as int) - ('0' as int)
  }

  function DigitChar(d: nat): (c: char)
    requires d < 10
    ensures IsDigit(c) && DigitValue(c) == d
  {
    (('0' as int) + d) as char
  }

  /** The text of a cell with every thousands separator removed. */
  function StripCommas(s: string): (r: string)
    ensures |r| <= |s|
    ensures ',' !in r
  {
    if s == [] then []
    else
      var init, last := s[..|s| - 1], s[|s| - 1];
      assert s == init + [last];
      if last == ',' then StripCommas(init) else StripCommas(init) + [last]
  }

  /** Value of a run of decimal digits, most significant first. */
  function DigitsValue(s: string): nat
    requires AllDigits(s)
  {
    if s == [] then 0 else 10 * DigitsValue(s[..|s| - 1]) + DigitValue(s[|s| - 1])
  }

  /** Reads a non-empty run of decimal digits; anything else is a parse error. */
  function ParseNat(s: string): (r: Option<nat>)
    ensures r.Some? <==> s != [] && AllDigits(s)
  {
    if s != [] && AllDigits(s) then Some(DigitsValue(s)) else None
  }

  /** A count cell as the dashboard reads it: separators removed, then parsed. */
  function CleanCount(cell: string): Option<nat> {
    ParseNat(StripCommas(cell))
  }

  function Pow10(k: nat): (p: nat)
    ensures p >= 1
  {
    if k == 0 then 1 else 10 * Pow10(k - 1)
  }

  /** The usual decimal rendering of n, without separators. */
  function NatToDigits(n: nat): (s: string)
    ensures s != [] && AllDigits(s)
  {
    if n < 10 then [DigitChar(n)] else NatToDigits(n / 10) + [DigitChar(n % 10)]
  }

  /** Exactly three digits, with leading zeros: one group after a separator. */
  function Pad3(k: nat): (s: string)
    requires k < 1000
    ensures |s| == 3 && AllDigits(s)
  {
    [DigitChar(k / 100), DigitChar(k / 10 % 10), DigitChar(k % 10)]
  }

  /** n rendered with a ',' between every group of three digits, as in the tables. */
  function Grouped(n: nat): string {
    if n < 1000 then NatToDigits(n) else Grouped(n / 1000) + "," + Pad3(n % 1000)
  }

  // ---------------------------------------------------------------------------
  // Stripping separators keeps every other character, in order.

  lemma {:induction false} StripCommasConcat(a: string, b: string)
    ensures StripCommas(a + b) == StripCommas(a) + StripCommas(b)
    decreases |b|
  {
    if b == [] {
      assert a + b == a;
    } else {
      var init, last := b[..|b| - 1], b[|b| - 1];
      assert a + b == (a + init) + [last];
      assert (a + b)[..|a + b| - 1] == a + init;
      StripCommasConcat(a, init);
    }
  }

  /** Every character other than ',' keeps its number of occurrences. */
  lemma {:induction false} StripCommasKeepsOthers(s: string)
    ensures forall c :: c != ',' ==> multiset(StripCommas(s))[c] == multiset(s)[c]
    decreases |s|
  {
    if s != [] {
      var init := s[..|s| - 1];
      assert s == init + [s[|s| - 1]];
      StripCommasKeepsOthers(init);
    }
  }

  lemma StripCommasChar(c: char)
    ensures StripCommas([c]) == if c == ',' then [] else [c]
  {
    assert [c][..0] == [];
  }

  /** A text with no separator is left unchanged. */
  lemma {:induction false} StripCommasNoComma(s: string)
    requires ',' !in s
    ensures StripCommas(s) == s
    decreases |s|
  {
    if s != [] {
      var init := s[..|s| - 1];
      assert s == init + [s[|s| - 1]];
      assert ',' !in init by {
        forall i | 0 <= i < |init| ensures init[i] != ',' { assert init[i] == s[i]; }
      }
      StripCommasNoComma(init);
    }
  }

  /** A cell is readable exactly when it holds at least one digit and nothing but digits and separators. */
  lemma {:induction false} CleanCountDefinedIff(cell: string)
    ensures CleanCount(cell).Some? <==>
              (exists i :: 0 <= i < |cell| && IsDigit(cell[i])) &&
              (forall i :: 0 <= i < |cell| ==> IsDigit(cell[i]) || cell[i] == ',')
  {
    var r := StripCommas(cell);
    StripCommasKeepsOthers(cell);
    var hasDigit := exists i :: 0 <= i < |cell| && IsDigit(cell[i]);
    var onlyDigitsAndCommas := forall i :: 0 <= i < |cell| ==> IsDigit(cell[i]) || cell[i] == ',';
    if r != [] && AllDigits(r) {
      assert multiset(r)[r[0]] > 0;
      assert multiset(cell)[r[0]] > 0;
      var j :| 0 <= j < |cell| && cell[j] == r[0];
      assert IsDigit(cell[j]);
      forall i | 0 <= i < |cell| ensures IsDigit(cell[i]) || cell[i] == ',' {
        if cell[i] != ',' {
          assert multiset(cell)[cell[i]] > 0;
          assert multiset(r)[cell[i]] > 0;
          var k :| 0 <= k < |r| && r[k] == cell[i];
        }
      }
    } else if r == [] {
      forall i | 0 <= i < |cell| ensures cell[i] == ',' || multiset(r)[cell[i]] > 0 {
        assert multiset(cell)[cell[i]] > 0;
      }
    } else {
      var k :| 0 <= k < |r| && !IsDigit(r[k]);
      assert multiset(r)[r[k]] > 0;
      assert r[k] != ',';
      assert multiset(cell)[r[k]] > 0;
      var j :| 0 <= j < |cell| && cell[j] == r[k];
      assert !(IsDigit(cell[j]) || cell[j] == ',');
    }
  }

  // ---------------------------------------------------------------------------
  // Reading digits inverts writing them.

  lemma {:induction false} DigitsValueConcat(a: string, b: string)
    requires AllDigits(a) && AllDigits(b)
    ensures AllDigits(a + b)
    ensures DigitsValue(a + b) == DigitsValue(a) * Pow10(|b|) + DigitsValue(b)
    decreases |b|
  {
    if b == [] {
      assert a + b == a;
    } else {
      var init, d := b[..|b| - 1], DigitValue(b[|b| - 1]);
      assert (a + b)[..|a + b| - 1] == a + init;
      assert (a + b)[|a + b| - 1] == b[|b| - 1];
      DigitsValueConcat(a, init);
      assert DigitsValue(a + b) == 10 * DigitsValue(a + init) + d;
      ShiftDigit(DigitsValue(a), Pow10(|init|), DigitsValue(init), d);
    }
  }

  /** Appending a digit to a shifted head and a tail, in arithmetic. */
  lemma ShiftDigit(head: nat, p: nat, tail: nat, d: nat)
    ensures 10 * (head * p + tail) + d == head * (10 * p) + (10 * tail + d)
  {
  }

  /** Parsing the decimal rendering of n gives n back. */
  lemma {:induction false} ParseNatRoundTrip(n: nat)
    ensures ParseNat(NatToDigits(n)) == Some(n)
    ensures DigitsValue(NatToDigits(n)) == n
    decreases n
  {
    var s := NatToDigits(n);
    if n < 10 {
      assert s == [DigitChar(n)];
      assert s[..|s| - 1] == [];
      assert DigitsValue(s) == DigitValue(DigitChar(n));
    } else {
      ParseNatRoundTrip(n / 10);
      assert s[..|s| - 1] == NatToDigits(n / 10);
      assert DigitValue(s[|s| - 1]) == n % 10;
    }
  }

  lemma Pad3Value(k: nat)
    requires k < 1000
    ensures DigitsValue(Pad3(k)) == k
    ensures ',' !in Pad3(k)
  {
    var s := Pad3(k);
    assert s[..2][..1] == [DigitChar(k / 100)];
    assert s[..2] == [DigitChar(k / 100), DigitChar(k / 10 % 10)];
    assert [DigitChar(k / 100)][..0] == [];
    assert DigitsValue([DigitChar(k / 100)]) == k / 100;
    assert DigitsValue(s[..2][..1]) == k / 100;
    assert DigitsValue(s[..2]) == 10 * (k / 100) + k / 10 % 10;
    assert k / 10 == 10 * (k / 100) + k / 10 % 10;
    assert k == 10 * (k / 10) + k % 10;
  }

  /** Removing the separators from a grouped rendering leaves the digits of n. */
  lemma {:induction false} GroupedStripped(n: nat)
    ensures StripCommas(Grouped(n)) != [] && AllDigits(StripCommas(Grouped(n)))
    ensures DigitsValue(StripCommas(Grouped(n))) == n
    decreases n
  {
    if n < 1000 {
      assert ',' !in NatToDigits(n) by {
        var s := NatToDigits(n);
        forall i | 0 <= i < |s| ensures s[i] != ',' { assert IsDigit(s[i]); }
      }
      StripCommasNoComma(NatToDigits(n));
      ParseNatRoundTrip(n);
    } else {
      var hi := Grouped(n / 1000);
      var lo := Pad3(n % 1000);
      GroupedStripped(n / 1000);
      StripCommasConcat(hi + ",", lo);
      StripCommasConcat(hi, ",");
      StripCommasChar(',');
      Pad3Value(n % 1000);
      StripCommasNoComma(lo);
      assert StripCommas(Grouped(n)) == StripCommas(hi) + lo;
      DigitsValueConcat(StripCommas(hi), lo);
      assert Pow10(3) == 1000;
    }
  }

  /** A count written with thousands separators is read back as that count. */
  lemma GroupedRoundTrip(n: nat)
    ensures CleanCount(Grouped(n)) == Some(n)
  {
    GroupedStripped(n);
  }

  /** Two sample cells: "1,234,567" and "42". */
  lemma CleanCountExamples()
    ensures CleanCount("1,234,567") == Some(1234567)
    ensures CleanCount("42") == Some(42)
  {
    assert Pad3(234) == "234" && Pad3(567) == "567";
    assert Grouped(1234) == "1,234" by {
      assert Grouped(1) == "1";
    }
    assert Grouped(1234567) == "1,234,567";
    assert Grouped(42) == "42";
    GroupedRoundTrip(1234567);
    GroupedRoundTrip(42);
  }

  /** A cell with a character other than a digit or ',' is not read, nor is a cell of separators only. */
  lemma CleanCountRejects()
    ensures CleanCount("1,2x4") == None
    ensures CleanCount(",") == None
  {
    CleanCountDefinedIff("1,2x4");
    assert !IsDigit("1,2x4"[3]);
    CleanCountDefinedIff(",");
  }
}

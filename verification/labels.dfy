/**
 * The three tests the dashboard applies to an occupation label such as
 * "31301 Registered nurses". They are kept apart on purpose: the code-set
 * test looks for an occupation code anywhere in the label, the category
 * test asks for the text "<code> " at the start, and the first-character
 * test compares the label's first character with the category code.
 */
module Labels {
  import opened Counts

  /** code occurs in the label starting at position i. */
  predicate OccursAt(code: string, text: string, i: int) {
    0 <= i && i + |code| <= |text| && text[i..i + |code|] == code
  }

  /** code occurs in the label as a contiguous piece of text. */
  predicate IsSubstring(code: string, text: string) {
    exists i :: 0 <= i <= |text| - |code| && OccursAt(code, text, i)
  }

  /**
   * The essential-service and engineer test: some code of the group occurs in
   * the label. The source hands the codes to a regular expression joined by
   * '|'; the codes are plain digit strings, so that is the same test.
   */
  predicate MatchesAnyCode(text: string, codes: seq<string>) {
    exists k :: 0 <= k < |codes| && IsSubstring(codes[k], text)
  }

  /** The gender-by-category test: the label starts with the code in decimal followed by a space. */
  predicate HasCategoryPrefix(text: string, code: nat) {
    var p := NatToDigits(code) + " ";
    |p| <= |text| && text[..|p|] == p
  }

  /**
   * The occupation-percentage test: the label's first character, as a
   * one-character string, equals the code in decimal. A label with no first
   * character matches nothing.
   */
  predicate FirstCharIs(text: string, code: nat) {
    |text| > 0 && [text[0]] == NatToDigits(code)
  }

  lemma DigitsOfSmall(d: nat)
    requires d < 10
    ensures NatToDigits(d) == [DigitChar(d)]
  {
  }

  /** The decimal rendering determines the number. */
  lemma NatToDigitsInjective(a: nat, b: nat)
    requires NatToDigits(a) == NatToDigits(b)
    ensures a == b
  {
    ParseNatRoundTrip(a);
    ParseNatRoundTrip(b);
  }

  /** For a one-digit code, the category test implies the first-character test. */
  lemma PrefixImpliesFirstChar(text: string, d: nat)
    requires d < 10
    requires HasCategoryPrefix(text, d)
    ensures FirstCharIs(text, d)
  {
    DigitsOfSmall(d);
    assert text[..2][0] == text[0];
  }

  /** The first-character test matches a label under at most one code. */
  lemma FirstCharDeterminesCode(text: string, a: nat, b: nat)
    ensures FirstCharIs(text, a) && FirstCharIs(text, b) ==> a == b
  {
    if FirstCharIs(text, a) && FirstCharIs(text, b) {
      NatToDigitsInjective(a, b);
    }
  }

  /** A label that starts with no digit from 1 to 9, or is empty, fails the first-character test of categories 1 to 9. */
  lemma FirstCharNeedsDigit(text: string, code: nat)
    requires 0 < code < 10
    requires text == [] || !('1' <= text[0] <= '9')
    ensures !FirstCharIs(text, code)
  {
    DigitsOfSmall(code);
  }

  /** The category test matches a label under at most one one-digit code. */
  lemma CategoryPrefixDeterminesCode(text: string, a: nat, b: nat)
    requires a < 10 && b < 10
    requires HasCategoryPrefix(text, a) && HasCategoryPrefix(text, b)
    ensures a == b
  {
    PrefixImpliesFirstChar(text, a);
    PrefixImpliesFirstChar(text, b);
    FirstCharDeterminesCode(text, a, b);
  }

  /**
   * The two prefix tests disagree: a five-digit unit-group label starting with
   * the category digit passes the first-character test and fails the category
   * test, because no space follows the digit.
   */
  lemma PrefixTestsDisagree()
    ensures FirstCharIs("00010 Legislators", 0) && !HasCategoryPrefix("00010 Legislators", 0)
    ensures FirstCharIs("10001 Some category-10 job", 1) && !HasCategoryPrefix("10001 Some category-10 job", 1)
    ensures HasCategoryPrefix("1 Business/Finance", 1)
  {
    DigitsOfSmall(0);
    DigitsOfSmall(1);
    assert "00010 Legislators"[..2] != "0 " by { assert "00010 Legislators"[..2][1] == '0'; }
    assert "10001 Some category-10 job"[..2] != "1 " by { assert "10001 Some category-10 job"[..2][1] == '0'; }
    assert DigitChar(1) == '1';
    var t := "1 Business/Finance";
    assert t[..2][0] == '1' && t[..2][1] == ' ';
    assert t[..2] == [DigitChar(1)] + " ";
  }

  /**
   * A unit-group label is a code followed by a name without digits. A code of
   * the same length as the label's own occurs in it exactly when it is that code.
   */
  lemma UnitLabelMatchesOwnCode(code: string, own: string, name: string)
    requires |code| == |own| > 0 && AllDigits(code) && AllDigits(own)
    requires forall i :: 0 <= i < |name| ==> !IsDigit(name[i])
    ensures IsSubstring(code, own + name) <==> code == own
  {
    var text := own + name;
    var n := |code|;
    forall i | 0 < i <= |text| - n
      ensures !OccursAt(code, text, i)
    {
      var j := i + n - 1;
      assert text[j] == name[j - |own|];
      assert text[i..i + n][n - 1] == text[j] != code[n - 1];
    }
    assert text[..n] == own;
    assert OccursAt(code, text, 0) <==> code == own;
  }

  /** A label with no digit contains no code. */
  lemma NoDigitNoCode(code: string, text: string)
    requires |code| > 0 && AllDigits(code)
    requires forall i :: 0 <= i < |text| ==> !IsDigit(text[i])
    ensures !IsSubstring(code, text)
  {
    forall i | 0 <= i <= |text| - |code|
      ensures !OccursAt(code, text, i)
    {
      assert text[i..i + |code|][0] == text[i] != code[0];
    }
  }

  /** A unit-group label passes a group's code test exactly when its own code is one of the group's. */
  lemma UnitLabelMatchesGroup(own: string, name: string, codes: seq<string>)
    requires |own| > 0 && AllDigits(own)
    requires forall k :: 0 <= k < |codes| ==> |codes[k]| == |own| && AllDigits(codes[k])
    requires forall i :: 0 <= i < |name| ==> !IsDigit(name[i])
    ensures MatchesAnyCode(own + name, codes) <==> own in codes
  {
    forall k | 0 <= k < |codes|
      ensures IsSubstring(codes[k], own + name) <==> codes[k] == own
    {
      UnitLabelMatchesOwnCode(codes[k], own, name);
    }
  }

  /** A label without digits passes no group's code test. */
  lemma NoDigitMatchesNoGroup(text: string, codes: seq<string>)
    requires forall k :: 0 <= k < |codes| ==> |codes[k]| > 0 && AllDigits(codes[k])
    requires forall i :: 0 <= i < |text| ==> !IsDigit(text[i])
    ensures !MatchesAnyCode(text, codes)
  {
    forall k | 0 <= k < |codes| ensures !IsSubstring(codes[k], text) {
      NoDigitNoCode(codes[k], text);
    }
  }
}

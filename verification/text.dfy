/**
 The few string operations the verifier's decision logic relies on:
 lower-casing, decimal digit strings and their value, substring and suffix
 tests. Lower-casing is restricted to the ASCII letters.
 */
module Text {

  /** Lower-cases one ASCII letter; every other character is left as it is. */
  function Lower(c: char): char
  {
    if 'A' <= c <= 'Z' then (c as int + 32) as char else c
  }

  function LowerString(s: string): (r: string)
    ensures |r| == |s|
    ensures forall i :: 0 <= i < |s| ==> r[i] == Lower(s[i])
  {
    seq(|s|, i requires 0 <= i < |s| => Lower(s[i]))
  }

  /** `s` has no upper-case ASCII letter. */
  predicate NoUpper(s: string)
  {
    forall i :: 0 <= i < |s| ==> !('A' <= s[i] <= 'Z')
  }

  lemma LowerNoUpper(s: string)
    requires NoUpper(s)
    ensures LowerString(s) == s
  {
  }

  predicate IsDigit(c: char)
  {
    '0' <= c <= '9'
  }

  predicate AllDigits(s: string)
  {
    forall i :: 0 <= i < |s| ==> IsDigit(s[i])
  }

  predicate EndsWith(s: string, suffix: string)
  {
    |suffix| <= |s| && s[|s| - |suffix|..] == suffix
  }

  /** `sub` occurs in `s` starting at index `i`. */
  predicate OccursAt(s: string, sub: string, i: int)
  {
    0 <= i <= |s| - |sub| && s[i..i + |sub|] == sub
  }

  /** `sub` occurs somewhere in `s` (the `in` operator on two strings). */
  predicate Contains(s: string, sub: string)
  {
    exists i | 0 <= i <= |s| - |sub| :: OccursAt(s, sub, i)
  }

  function DigitValue(c: char): (v: nat)
    requires IsDigit(c)
    ensures v <= 9
  {
    c as int - '0' as int
  }

  /** The value of a decimal digit string, most significant digit first. */
  function DigitsValue(s: string): nat
    requires AllDigits(s)
  {
    if |s| == 0 then 0 else DigitsValue(s[..|s| - 1]) * 10 + DigitValue(s[|s| - 1])
  }

  /** Removes every leading '0'. */
  function StripLeadingZeros(s: string): (r: string)
    ensures |r| <= |s| && r == s[|s| - |r|..]
    ensures r == [] || r[0] != '0'
    ensures forall i :: 0 <= i < |s| - |r| ==> s[i] == '0'
  {
    if |s| > 0 && s[0] == '0' then StripLeadingZeros(s[1..]) else s
  }

  /**
   The integer a digit group denotes, computed as the verifier computes it:
   strip the leading zeros, read an empty remainder as 0, convert.
   */
  function ParseDigits(s: string): nat
    requires AllDigits(s)
  {
    var t := StripLeadingZeros(s);
    StrippedDigits(s);
    if t == "" then 0 else DigitsValue(t)
  }

  /** A leading zero does not change the value of a digit string. */
  lemma {:induction false} LeadingZeroValue(t: string)
    requires AllDigits(t)
    ensures DigitsValue("0" + t) == DigitsValue(t)
    decreases |t|
  {
    if |t| > 0 {
      var u := t[..|t| - 1];
      assert ("0" + t)[..|t|] == "0" + u;
      LeadingZeroValue(u);
    }
  }

  /** A digit string without a leading zero and of length two or more is worth at least ten. */
  lemma {:induction false} NoLeadingZeroValue(t: string)
    requires AllDigits(t) && |t| > 0 && t[0] != '0'
    ensures DigitsValue(t) >= 1
    ensures |t| >= 2 ==> DigitsValue(t) >= 10
    decreases |t|
  {
    if |t| >= 2 {
      NoLeadingZeroValue(t[..|t| - 1]);
    }
  }

  /** Stripping leading zeros, as the verifier does, yields the ordinary decimal value. */
  lemma {:induction false} ParseDigitsIsValue(s: string)
    requires AllDigits(s)
    ensures ParseDigits(s) == DigitsValue(s)
    decreases |s|
  {
    if |s| > 0 && s[0] == '0' {
      ParseDigitsIsValue(s[1..]);
      assert s == "0" + s[1..];
      LeadingZeroValue(s[1..]);
    }
  }

  /** A digit group denotes one exactly when it is "1" after its leading zeros are removed. */
  lemma ParseDigitsIsOne(s: string)
    requires AllDigits(s)
    ensures ParseDigits(s) == 1 <==> StripLeadingZeros(s) == "1"
  {
    var t := StripLeadingZeros(s);
    StrippedDigits(s);
    if t == "" {
    } else if |t| == 1 {
      SingleDigitValue(t);
      assert t == "1" <==> t[0] == '1';
    } else {
      NoLeadingZeroValue(t);
    }
  }

  lemma StrippedDigits(s: string)
    requires AllDigits(s)
    ensures AllDigits(StripLeadingZeros(s))
  {
    var t := StripLeadingZeros(s);
    forall i | 0 <= i < |t| ensures IsDigit(t[i]) {
      assert t[i] == s[|s| - |t| + i];
    }
  }

  lemma SingleDigitValue(t: string)
    requires |t| == 1 && AllDigits(t)
    ensures DigitsValue(t) == DigitValue(t[0])
  {
    assert t[..0] == [];
  }
}

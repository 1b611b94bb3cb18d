/**
 The order in which the record store lists its paths: Python compares `str`
 values by code point, lexicographically, with a proper prefix first.
 */
module PathOrder {

  /**
   The textbook definition of the order: `a` is a proper prefix of `b`, or the
   two agree up to a position where `a` has the smaller character.
   */
  ghost predicate LexBefore(a: string, b: string)
  {
    || (|a| < |b| && a == b[..|a|])
    || exists i :: 0 <= i < |a| && i < |b| && a[..i] == b[..i] && a[i] < b[i]
  }

  /** `a` sorts strictly before `b`, comparing one character at a time. */
  predicate Less(a: string, b: string): (lt: bool)
    ensures lt <==> LexBefore(a, b)
    decreases |a|
  {
    if |a| == 0 then
      assert |b| > 0 ==> a == b[..0];
      |b| > 0
    else if |b| == 0 then
      false
    else if a[0] != b[0] then
      assert a[..0] == b[..0];
      LexHead(a, b);
      a[0] < b[0]
    else
      LexShift(a, b);
      Less(a[1..], b[1..])
  }

  /** The first characters of two strings already bound their order. */
  lemma LexHead(a: string, b: string)
    requires |a| > 0 && |b| > 0
    ensures a[0] < b[0] ==> LexBefore(a, b)
    ensures LexBefore(a, b) ==> a[0] <= b[0]
  {
    assert a[..0] == b[..0];
    if LexBefore(a, b) {
      if |a| < |b| && a == b[..|a|] {
        assert a[0] == b[..|a|][0];
      } else {
        var i :| 0 <= i < |a| && i < |b| && a[..i] == b[..i] && a[i] < b[i];
        if i > 0 {
          assert a[0] == a[..i][0] && b[0] == b[..i][0];
        }
      }
    }
  }

  /** A common first character does not change the order of the rest. */
  lemma LexShift(a: string, b: string)
    requires |a| > 0 && |b| > 0 && a[0] == b[0]
    ensures LexBefore(a, b) <==> LexBefore(a[1..], b[1..])
  {
    var a', b' := a[1..], b[1..];
    if |a| < |b| && a == b[..|a|] {
      assert a' == b'[..|a'|];
    }
    if |a'| < |b'| && a' == b'[..|a'|] {
      assert a == [a[0]] + a' && b[..|a|] == [b[0]] + b'[..|a'|];
    }
    if i :| 0 <= i < |a| && i < |b| && a[..i] == b[..i] && a[i] < b[i] {
      if i == 0 {
        assert false;
      }
      assert a'[..i-1] == a[1..i] == b[1..i] == b'[..i-1];
      assert a'[i-1] < b'[i-1];
    }
    if j :| 0 <= j < |a'| && j < |b'| && a'[..j] == b'[..j] && a'[j] < b'[j] {
      assert a[..j+1] == [a[0]] + a'[..j] && b[..j+1] == [b[0]] + b'[..j];
      assert a[j+1] < b[j+1];
    }
  }

  /** Every path is listed strictly before the next one: sorted and free of duplicates. */
  ghost predicate StrictlySorted(s: seq<string>)
  {
    forall i, j :: 0 <= i < j < |s| ==> Less(s[i], s[j])
  }

  lemma {:induction false} LessIrreflexive(a: string)
    ensures !Less(a, a)
    decreases |a|
  {
    if |a| > 0 {
      LessIrreflexive(a[1..]);
    }
  }

  lemma {:induction false} LessTransitive(a: string, b: string, c: string)
    requires Less(a, b) && Less(b, c)
    ensures Less(a, c)
    decreases |a|
  {
    if |a| > 0 && a[0] == b[0] && b[0] == c[0] {
      LessTransitive(a[1..], b[1..], c[1..]);
    }
  }

  /** Two different paths are always ordered one way or the other. */
  lemma {:induction false} LessTotal(a: string, b: string)
    requires a != b
    ensures Less(a, b) || Less(b, a)
    decreases |a|
  {
    if |a| > 0 && |b| > 0 && a[0] == b[0] {
      assert a == [a[0]] + a[1..] && b == [b[0]] + b[1..];
      LessTotal(a[1..], b[1..]);
    }
  }

  lemma {:induction false} LessAsymmetric(a: string, b: string)
    requires Less(a, b)
    ensures !Less(b, a)
  {
    if Less(b, a) {
      LessTransitive(a, b, a);
      LessIrreflexive(a);
    }
  }
}

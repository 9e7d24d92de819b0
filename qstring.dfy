/**
 * The part of Qt's QString that the user model relies on.
 *
 * A QString is a sequence of UTF-16 code units (QChar). It is modelled here
 * as a sequence of 16-bit code units rather than as a Dafny `string`, because
 * Dafny characters are Unicode scalar values while QString compares strings
 * code unit by code unit.
 */
module QStrings {

  /** One UTF-16 code unit. */
  newtype QChar = c: int | 0 <= c < 0x1_0000

  type QString = seq<QChar>

  /** A QString holding the single ASCII character `c`. */
  function Ascii1(c: char): (r: QString)
    requires c < 128 as char
    ensures |r| == 1 && r[0] as int == c as int
  {
    [c as int as QChar]
  }

  // ---------------------------------------------------------------------
  // Lower-casing (QString::toLower), restricted to ASCII
  // ---------------------------------------------------------------------

  predicate IsUpperAscii(c: QChar) {
    'A' as int as QChar <= c <= 'Z' as int as QChar
  }

  /** Lower-cases one code unit: 'A'..'Z' become 'a'..'z', all others are kept. */
  function LowerChar(c: QChar): (r: QChar)
    ensures !IsUpperAscii(r)
    ensures IsUpperAscii(c) ==> r as int == c as int + ('a' as int - 'A' as int)
    ensures !IsUpperAscii(c) ==> r == c
  {
    if IsUpperAscii(c) then c + ('a' as int - 'A' as int) as QChar else c
  }

  /** A string that lower-casing leaves as it is. */
  predicate IsLower(s: QString) {
    forall i :: 0 <= i < |s| ==> !IsUpperAscii(s[i])
  }

  /** QString::toLower on the ASCII range: lower-cases every code unit in place. */
  function ToLower(s: QString): (r: QString)
    ensures |r| == |s|
    ensures forall i :: 0 <= i < |s| ==> r[i] == LowerChar(s[i])
    ensures IsLower(r)
    ensures IsLower(s) ==> r == s
  {
    seq(|s|, i requires 0 <= i < |s| => LowerChar(s[i]))
  }

  /** Lower-casing is idempotent. */
  lemma ToLowerIdempotent(s: QString)
    ensures ToLower(ToLower(s)) == ToLower(s)
  {
  }

  /** The only one-unit strings that lower-case to the ASCII letter `c` are `c` and its upper-case form. */
  lemma ToLowerIsSingleLetter(s: QString, c: char)
    requires 'a' <= c <= 'z'
    ensures ToLower(s) == Ascii1(c) <==>
            s == Ascii1(c) || s == Ascii1((c as int - ('a' as int - 'A' as int)) as char)
  {
  }

  // ---------------------------------------------------------------------
  // Ordering (QString's operator<)
  // ---------------------------------------------------------------------

  /** `a` is a proper prefix of `b`. */
  predicate IsProperPrefix(a: QString, b: QString) {
    |a| < |b| && a == b[..|a|]
  }

  /**
   * QString's operator<: compares code units from the left; the first unit
   * that differs decides, and a proper prefix is smaller than the longer string.
   */
  function Less(a: QString, b: QString): (r: bool)
    ensures IsProperPrefix(a, b) ==> r
    ensures r ==> !IsProperPrefix(b, a)
  {
    if a == [] then b != []
    else if b == [] then false
    else a[0] < b[0] || (a[0] == b[0] && Less(a[1..], b[1..]))
  }

  /** `a` and `b` agree before position `k` and `a` has the smaller code unit at `k`. */
  predicate FirstDifferenceAt(a: QString, b: QString, k: nat) {
    k < |a| && k < |b| && a[..k] == b[..k] && a[k] < b[k]
  }

  /** Less agrees with the usual description of lexicographic order. */
  lemma {:induction false} LessIffPrefixOrFirstDifference(a: QString, b: QString)
    ensures Less(a, b) <==> IsProperPrefix(a, b) || exists k: nat :: FirstDifferenceAt(a, b, k)
  {
    if a == [] || b == [] {
    } else if a[0] < b[0] {
      assert FirstDifferenceAt(a, b, 0);
    } else if a[0] > b[0] {
    } else {
      LessIffPrefixOrFirstDifference(a[1..], b[1..]);
      assert IsProperPrefix(a, b) <==> IsProperPrefix(a[1..], b[1..]) by {
        if IsProperPrefix(a[1..], b[1..]) {
          assert a == [a[0]] + a[1..] && b[..|a|] == [b[0]] + b[1..][..|a| - 1];
        }
      }
      if exists k: nat :: FirstDifferenceAt(a[1..], b[1..], k) {
        var k: nat :| FirstDifferenceAt(a[1..], b[1..], k);
        assert a[..k + 1] == [a[0]] + a[1..][..k];
        assert b[..k + 1] == [b[0]] + b[1..][..k];
        assert FirstDifferenceAt(a, b, k + 1);
      }
      if exists k: nat :: FirstDifferenceAt(a, b, k) {
        var k: nat :| FirstDifferenceAt(a, b, k);
        assert k > 0;
        assert a[1..][..k - 1] == a[..k][1..];
        assert b[1..][..k - 1] == b[..k][1..];
        assert FirstDifferenceAt(a[1..], b[1..], k - 1);
      }
    }
  }

  lemma {:induction false} LessIrreflexive(a: QString)
    ensures !Less(a, a)
  {
    if a != [] {
      LessIrreflexive(a[1..]);
    }
  }

  lemma {:induction false} LessAsymmetric(a: QString, b: QString)
    requires Less(a, b)
    ensures !Less(b, a)
  {
    if a != [] && b != [] && a[0] == b[0] {
      LessAsymmetric(a[1..], b[1..]);
    }
  }

  lemma {:induction false} LessTransitive(a: QString, b: QString, c: QString)
    requires Less(a, b) && Less(b, c)
    ensures Less(a, c)
  {
    if a != [] && a[0] == b[0] && b[0] == c[0] {
      LessTransitive(a[1..], b[1..], c[1..]);
    }
  }

  /** Any two different strings are ordered one way or the other. */
  lemma {:induction false} LessTotal(a: QString, b: QString)
    requires a != b
    ensures Less(a, b) || Less(b, a)
  {
    if a != [] && b != [] && a[0] == b[0] {
      assert a == [a[0]] + a[1..] && b == [b[0]] + b[1..];
      LessTotal(a[1..], b[1..]);
    }
  }
}

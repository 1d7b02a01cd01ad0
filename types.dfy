/**
 * The key type of the secret tree's objects: `UpperKey`, a string kept in
 * upper-case normal form, so that keys that differ only in letter case are
 * the same key. Objects are `UniCaseMap<V>`, an insertion-ordered map from
 * `UpperKey`, modelled as an association list (see module IndexMap).
 */
module Types {
  predicate IsLowerAscii(c: char) {
    'a' <= c <= 'z'
  }

  /** ASCII upper-casing of one character. */
  function UpperChar(c: char): (r: char)
    ensures !IsLowerAscii(r)
    ensures IsLowerAscii(c) ==> 'A' <= r <= 'Z' && r as int == c as int - ('a' as int - 'A' as int)
    ensures !IsLowerAscii(c) ==> r == c
  {
    if IsLowerAscii(c) then (c as int - 32) as char else c
  }

  /** A key in normal form has no lower-case letter left. */
  predicate IsUpperNormal(s: string) {
    forall i :: 0 <= i < |s| ==> !IsLowerAscii(s[i])
  }

  type UpperKey = k: string | IsUpperNormal(k) witness ""

  type UniCaseMap<V> = seq<(UpperKey, V)>

  /** `UpperKey::from`: the normal form of a key. */
  function Upper(s: string): (r: UpperKey)
    ensures |r| == |s|
    ensures forall i :: 0 <= i < |s| ==> r[i] == UpperChar(s[i])
  {
    seq(|s|, i requires 0 <= i < |s| => UpperChar(s[i]))
  }

  /** Normalising a key that is already normal changes nothing. */
  lemma UpperOfNormal(s: string)
    requires IsUpperNormal(s)
    ensures Upper(s) == s
  {
  }

  /** Normalisation is idempotent, so a lookup key can be normalised any number of times. */
  lemma UpperIdempotent(s: string)
    ensures Upper(Upper(s)) == Upper(s)
  {
    UpperOfNormal(Upper(s));
  }

  /** Normalisation commutes with slicing. */
  lemma UpperSlice(s: string, i: nat, j: nat)
    requires i <= j <= |s|
    ensures Upper(s)[i..j] == Upper(s[i..j])
  {
  }

  /** Two characters are the same up to ASCII letter case. */
  predicate SameLetterIgnoringCase(c: char, d: char) {
    || c == d
    || (IsLowerAscii(c) && d as int == c as int - ('a' as int - 'A' as int))
    || (IsLowerAscii(d) && c as int == d as int - ('a' as int - 'A' as int))
  }

  /** Two strings are equal up to ASCII letter case, character by character. */
  predicate EqualIgnoringCase(s: string, t: string) {
    |s| == |t| && forall i :: 0 <= i < |s| ==> SameLetterIgnoringCase(s[i], t[i])
  }

  /** Two keys normalise to the same `UpperKey` exactly when they differ only in ASCII letter case. */
  lemma UpperIgnoresCase(s: string, t: string)
    ensures Upper(s) == Upper(t) <==> EqualIgnoringCase(s, t)
  {
    if Upper(s) == Upper(t) {
      forall i | 0 <= i < |s| ensures SameLetterIgnoringCase(s[i], t[i]) {
        assert Upper(s)[i] == Upper(t)[i];
      }
    }
    if EqualIgnoringCase(s, t) {
      forall i | 0 <= i < |s| ensures Upper(s)[i] == Upper(t)[i] {
        assert SameLetterIgnoringCase(s[i], t[i]);
      }
    }
  }
}

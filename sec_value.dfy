/**
 * `SecValue<T>`: a scalar payload paired with its secrecy flag. The flag
 * decides only how the value is displayed; comparison looks at the payload
 * alone, and no tagging operation touches the payload.
 */
module SecLeaf {
  import opened Wrappers
  import opened Order
  import opened Types

  /** What a secret value displays as, whatever its payload. */
  const Mask: string := "***"

  datatype SecValue<T> = SecValue(isSecret: bool, value: T) {
    /** `to_nor`: the same payload, flagged normal. */
    function ToNor(): (r: SecValue<T>)
      ensures !r.isSecret && r.value == value
    {
      this.(isSecret := false)
    }

    /** `to_sec`: the same payload, flagged secret. */
    function ToSec(): (r: SecValue<T>)
      ensures r.isSecret && r.value == value
    {
      this.(isSecret := true)
    }
  }

  /** `SecFrom::sec_from` for a scalar: tag a payload secret. */
  function SecFrom<T>(v: T): (r: SecValue<T>)
    ensures r.isSecret && r.value == v
  {
    SecValue(true, v)
  }

  /** `SecFrom::nor_from` for a scalar: tag a payload normal. */
  function NorFrom<T>(v: T): (r: SecValue<T>)
    ensures !r.isSecret && r.value == v
  {
    SecValue(false, v)
  }

  /** `PartialOrd for SecValue<T>`: the payloads' own comparison. */
  function PartialCmp<T>(a: SecValue<T>, b: SecValue<T>, cmp: (T, T) -> Option<Ordering>): (r: Option<Ordering>)
    ensures forall s, t :: r == cmp(a.(isSecret := s).value, b.(isSecret := t).value)
  {
    cmp(a.value, b.value)
  }

  /** `Display for SecValue<T>`, given the payload's own `Display` as `show`. */
  function Display<T>(v: SecValue<T>, show: T -> string): (r: string)
    ensures v.isSecret ==> r == Mask
    ensures !v.isSecret ==> r == show(v.value)
  {
    if v.isSecret then Mask else show(v.value)
  }

  /** Flipping a flag twice in the same direction is the same as flipping it once. */
  lemma FlipIdempotent<T>(v: SecValue<T>)
    ensures v.ToSec().ToSec() == v.ToSec()
    ensures v.ToNor().ToNor() == v.ToNor()
  {
  }

  /** A flip is undone by the opposite flip when the flag was already in that state. */
  lemma FlipInverse<T>(v: SecValue<T>)
    ensures !v.isSecret ==> v.ToSec().ToNor() == v
    ensures v.isSecret ==> v.ToNor().ToSec() == v
  {
  }

  /** Two secret values display alike, whatever their payloads and payload formats. */
  lemma SecretDisplayHidesPayload<T, U>(a: SecValue<T>, showA: T -> string, b: SecValue<U>, showB: U -> string)
    requires a.isSecret && b.isSecret
    ensures Display(a, showA) == Display(b, showB) == "***"
  {
  }

  /** `SecConv for Vec<SecValue<T>>::to_nor`: clear every flag in place. */
  method VecToNor<T>(v: seq<SecValue<T>>) returns (r: seq<SecValue<T>>)
    ensures |r| == |v|
    ensures forall i :: 0 <= i < |v| ==> !r[i].isSecret && r[i].value == v[i].value
  {
    r := v;
    var i := 0;
    while i < |r|
      invariant 0 <= i <= |r| == |v|
      invariant forall j :: 0 <= j < i ==> !r[j].isSecret && r[j].value == v[j].value
      invariant forall j :: i <= j < |r| ==> r[j] == v[j]
    {
      r := r[i := r[i].(isSecret := false)];
      i := i + 1;
    }
  }

  /** `SecConv for Vec<SecValue<T>>::to_sec`: set every flag in place. */
  method VecToSec<T>(v: seq<SecValue<T>>) returns (r: seq<SecValue<T>>)
    ensures |r| == |v|
    ensures forall i :: 0 <= i < |v| ==> r[i].isSecret && r[i].value == v[i].value
  {
    r := v;
    var i := 0;
    while i < |r|
      invariant 0 <= i <= |r| == |v|
      invariant forall j :: 0 <= j < i ==> r[j].isSecret && r[j].value == v[j].value
      invariant forall j :: i <= j < |r| ==> r[j] == v[j]
    {
      r := r[i := r[i].(isSecret := true)];
      i := i + 1;
    }
  }

  /** `SecConv for UniCaseMap<SecValue<T>>::to_nor`: clear every entry's flag, keys and order kept. */
  method MapToNor<T>(m: UniCaseMap<SecValue<T>>) returns (r: UniCaseMap<SecValue<T>>)
    ensures |r| == |m|
    ensures forall i :: 0 <= i < |m| ==> r[i].0 == m[i].0
    ensures forall i :: 0 <= i < |m| ==> !r[i].1.isSecret && r[i].1.value == m[i].1.value
  {
    r := m;
    var i := 0;
    while i < |r|
      invariant 0 <= i <= |r| == |m|
      invariant forall j :: 0 <= j < |r| ==> r[j].0 == m[j].0
      invariant forall j :: 0 <= j < i ==> !r[j].1.isSecret && r[j].1.value == m[j].1.value
      invariant forall j :: i <= j < |r| ==> r[j] == m[j]
    {
      r := r[i := (r[i].0, r[i].1.(isSecret := false))];
      i := i + 1;
    }
  }

  /** `SecConv for UniCaseMap<SecValue<T>>::to_sec`: set every entry's flag, keys and order kept. */
  method MapToSec<T>(m: UniCaseMap<SecValue<T>>) returns (r: UniCaseMap<SecValue<T>>)
    ensures |r| == |m|
    ensures forall i :: 0 <= i < |m| ==> r[i].0 == m[i].0
    ensures forall i :: 0 <= i < |m| ==> r[i].1.isSecret && r[i].1.value == m[i].1.value
  {
    r := m;
    var i := 0;
    while i < |r|
      invariant 0 <= i <= |r| == |m|
      invariant forall j :: 0 <= j < |r| ==> r[j].0 == m[j].0
      invariant forall j :: 0 <= j < i ==> r[j].1.isSecret && r[j].1.value == m[j].1.value
      invariant forall j :: i <= j < |r| ==> r[j] == m[j]
    {
      r := r[i := (r[i].0, r[i].1.(isSecret := true))];
      i := i + 1;
    }
  }
}

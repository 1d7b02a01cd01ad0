/** The result of a comparison, and the total orders of the scalar payloads the model can see. */
module Order {
  import opened Wrappers

  datatype Ordering = Less | Equal | Greater {
    /** The ordering seen from the other side of the comparison. */
    function Reverse(): (r: Ordering)
      ensures r == Equal <==> this == Equal
    {
      match this
      case Less => Greater
      case Equal => Equal
      case Greater => Less
    }
  }

  /** A partial comparison seen from the other side: `None` stays `None`. */
  function ReverseOpt(o: Option<Ordering>): (r: Option<Ordering>)
    ensures r.None? <==> o.None?
    ensures o.Some? ==> r.value == o.value.Reverse()
  {
    match o
    case None => None
    case Some(c) => Some(c.Reverse())
  }

  /** Numeric order of integers. */
  function CmpInt(a: int, b: int): (r: Ordering)
    ensures r == Less <==> a < b
    ensures r == Equal <==> a == b
    ensures r == Greater <==> a > b
  {
    if a < b then Less else if a == b then Equal else Greater
  }

  /** The order of `bool`: `false` comes before `true`. */
  function CmpBool(a: bool, b: bool): (r: Ordering)
    ensures r == Equal <==> a == b
    ensures r == Less <==> (!a && b)
  {
    if a == b then Equal else if !a then Less else Greater
  }

  /**
   * Lexicographic order of strings, character by character. Comparing the
   * UTF-8 bytes of two strings, as `String` does, gives the same answer,
   * because UTF-8 preserves the order of code points.
   */
  function CmpString(a: string, b: string): (r: Ordering)
    ensures r == Equal <==> a == b
    decreases |a|
  {
    if |a| == 0 then (if |b| == 0 then Equal else Less)
    else if |b| == 0 then Greater
    else if a[0] < b[0] then Less
    else if b[0] < a[0] then Greater
    else
      var rest := CmpString(a[1..], b[1..]);
      assert rest == Equal ==> a == [a[0]] + a[1..] == [b[0]] + b[1..] == b;
      rest
  }

  /** Swapping the operands of a string comparison reverses its result. */
  lemma {:induction false} CmpStringAntisymmetric(a: string, b: string)
    ensures CmpString(b, a) == CmpString(a, b).Reverse()
    decreases |a|
  {
    if |a| > 0 && |b| > 0 && a[0] == b[0] {
      CmpStringAntisymmetric(a[1..], b[1..]);
    }
  }

  /** A proper prefix comes before the string it begins. */
  lemma {:induction false} CmpStringPrefix(a: string, b: string)
    requires |a| < |b| && a == b[..|a|]
    ensures CmpString(a, b) == Less
    decreases |a|
  {
    if |a| > 0 {
      assert a[0] == b[0];
      assert a[1..] == b[1..][..|a[1..]|];
      CmpStringPrefix(a[1..], b[1..]);
    }
  }

  /** At the first position where two strings differ, the smaller character decides. */
  lemma {:induction false} CmpStringFirstDifference(a: string, b: string, k: nat)
    requires k < |a| && k < |b| && a[..k] == b[..k] && a[k] < b[k]
    ensures CmpString(a, b) == Less
    decreases k
  {
    if k > 0 {
      assert a[0] == a[..k][0] == b[..k][0] == b[0];
      assert a[1..][..k - 1] == a[1..k] == b[1..k] == b[1..][..k - 1];
      CmpStringFirstDifference(a[1..], b[1..], k - 1);
    }
  }
}

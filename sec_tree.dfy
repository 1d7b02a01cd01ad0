/**
 * `SecValueType`: the secret-tagged value tree. Every scalar leaf is a
 * `SecValue<T>` carrying its own secrecy flag; objects and lists carry no
 * flag of their own, so secrecy lives only at the leaves. Objects are
 * `UniCaseMap`s whose keys are upper-case normal.
 */
module SecTree {
  import opened Wrappers
  import opened Scalars
  import opened Order
  import opened Types
  import opened IndexMap
  import opened Decimal
  import opened SecLeaf
  import Plain

  datatype SecValueType =
    | String(str: SecValue<string>)
    | Bool(flag: SecValue<bool>)
    | Number(num: SecValue<u64>)
    | Float(float: SecValue<F64>)
    | Ip(ip: SecValue<IpAddr>)
    | Obj(obj: UniCaseMap<SecValueType>)
    | List(items: seq<SecValueType>)
  {
    predicate IsScalar() {
      !Obj? && !List?
    }

    /** The flag of a scalar leaf; containers are never secret themselves. */
    predicate IsSecretLeaf() {
      match this
      case String(v) => v.isSecret
      case Bool(v) => v.isSecret
      case Number(v) => v.isSecret
      case Float(v) => v.isSecret
      case Ip(v) => v.isSecret
      case _ => false
    }
  }

  /** Every scalar leaf at any depth carries flag `secret`. */
  predicate AllLeaves(t: SecValueType, secret: bool)
    decreases t
  {
    match t
    case Obj(m) => forall i :: 0 <= i < |m| ==> AllLeaves(m[i].1, secret)
    case List(l) => forall i :: 0 <= i < |l| ==> AllLeaves(l[i], secret)
    case _ => t.IsSecretLeaf() == secret
  }

  /** The map invariant at every depth: no key occurs twice in an object. */
  predicate WellFormed(t: SecValueType)
    decreases t
  {
    match t
    case Obj(m) => DistinctKeys(m) && forall i :: 0 <= i < |m| ==> WellFormed(m[i].1)
    case List(l) => forall i :: 0 <= i < |l| ==> WellFormed(l[i])
    case _ => true
  }

  // ---------------------------------------------------------------------
  // Stripping the tags: `NoSecConv`.
  // ---------------------------------------------------------------------

  /** `no_sec`: the plain tree with every flag dropped. */
  function NoSec(t: SecValueType): (r: Plain.ValueType)
    ensures WellFormed(t) ==> Plain.HasNormalKeys(r)
    ensures t.IsScalar() <==> !r.Obj? && !r.List?
    ensures t.String? ==> r == Plain.String(t.str.value)
    ensures t.Bool? ==> r == Plain.Bool(t.flag.value)
    ensures t.Number? ==> r == Plain.Number(t.num.value)
    ensures t.Float? ==> r == Plain.Float(t.float.value)
    ensures t.Ip? ==> r == Plain.Ip(t.ip.value)
    ensures t.Obj? <==> r.Obj?
    ensures t.List? <==> r.List?
    decreases t, 1
  {
    match t
    case String(v) => Plain.String(v.value)
    case Bool(v) => Plain.Bool(v.value)
    case Number(v) => Plain.Number(v.value)
    case Float(v) => Plain.Float(v.value)
    case Ip(v) => Plain.Ip(v.value)
    case Obj(m) => Plain.Obj(ObjNoSec(m))
    case List(l) => Plain.List(ListNoSec(l))
  }

  /** `no_sec` of an object: each key's text with its stripped value, in iteration order. */
  function ObjNoSec(m: UniCaseMap<SecValueType>): (r: seq<(string, Plain.ValueType)>)
    ensures |r| == |m|
    ensures forall i :: 0 <= i < |m| ==> r[i].0 == m[i].0 && r[i].1 == NoSec(m[i].1)
    ensures forall i :: 0 <= i < |m| && WellFormed(m[i].1) ==> Plain.HasNormalKeys(r[i].1)
    decreases Obj(m), 0
  {
    seq(|m|, i requires 0 <= i < |m| => (m[i].0, NoSec(m[i].1)))
  }

  /** `no_sec` of a list: each element stripped, in order. */
  function ListNoSec(l: seq<SecValueType>): (r: seq<Plain.ValueType>)
    ensures |r| == |l|
    ensures forall i :: 0 <= i < |l| ==> r[i] == NoSec(l[i])
    ensures forall i :: 0 <= i < |l| && WellFormed(l[i]) ==> Plain.HasNormalKeys(r[i])
    decreases List(l), 0
  {
    seq(|l|, i requires 0 <= i < |l| => NoSec(l[i]))
  }

  // ---------------------------------------------------------------------
  // Flipping the tags: `SecConv`.
  // ---------------------------------------------------------------------

  /** `SecValueType::to_nor`: every leaf flagged normal; nothing else changes. */
  function ToNor(t: SecValueType): (r: SecValueType)
    ensures AllLeaves(r, false)
    ensures NoSec(r) == NoSec(t)
    ensures WellFormed(t) ==> WellFormed(r)
    decreases t, 1
  {
    match t
    case String(v) => String(v.ToNor())
    case Bool(v) => Bool(v.ToNor())
    case Number(v) => Number(v.ToNor())
    case Float(v) => Float(v.ToNor())
    case Ip(v) => Ip(v.ToNor())
    case Obj(m) => Obj(ObjToNor(m))
    case List(l) => List(ListToNor(l))
  }

  /** `SecConv for UniCaseMap<SecValueType>::to_nor`. */
  function ObjToNor(m: UniCaseMap<SecValueType>): (r: UniCaseMap<SecValueType>)
    ensures Keys(r) == Keys(m)
    ensures forall i :: 0 <= i < |m| ==> AllLeaves(r[i].1, false) && NoSec(r[i].1) == NoSec(m[i].1)
    ensures forall i :: 0 <= i < |m| && WellFormed(m[i].1) ==> WellFormed(r[i].1)
    decreases Obj(m), 0
  {
    seq(|m|, i requires 0 <= i < |m| => (m[i].0, ToNor(m[i].1)))
  }

  /** `SecConv for Vec<SecValueType>::to_nor`. */
  function ListToNor(l: seq<SecValueType>): (r: seq<SecValueType>)
    ensures |r| == |l|
    ensures forall i :: 0 <= i < |l| ==> AllLeaves(r[i], false) && NoSec(r[i]) == NoSec(l[i])
    ensures forall i :: 0 <= i < |l| && WellFormed(l[i]) ==> WellFormed(r[i])
    decreases List(l), 0
  {
    seq(|l|, i requires 0 <= i < |l| => ToNor(l[i]))
  }

  /** `SecValueType::to_sec`: every leaf flagged secret; nothing else changes. */
  function ToSec(t: SecValueType): (r: SecValueType)
    ensures AllLeaves(r, true)
    ensures NoSec(r) == NoSec(t)
    ensures WellFormed(t) ==> WellFormed(r)
    decreases t, 1
  {
    match t
    case String(v) => String(v.ToSec())
    case Bool(v) => Bool(v.ToSec())
    case Number(v) => Number(v.ToSec())
    case Float(v) => Float(v.ToSec())
    case Ip(v) => Ip(v.ToSec())
    case Obj(m) => Obj(ObjToSec(m))
    case List(l) => List(ListToSec(l))
  }

  /** `SecConv for UniCaseMap<SecValueType>::to_sec`. */
  function ObjToSec(m: UniCaseMap<SecValueType>): (r: UniCaseMap<SecValueType>)
    ensures Keys(r) == Keys(m)
    ensures forall i :: 0 <= i < |m| ==> AllLeaves(r[i].1, true) && NoSec(r[i].1) == NoSec(m[i].1)
    ensures forall i :: 0 <= i < |m| && WellFormed(m[i].1) ==> WellFormed(r[i].1)
    decreases Obj(m), 0
  {
    seq(|m|, i requires 0 <= i < |m| => (m[i].0, ToSec(m[i].1)))
  }

  /** `SecConv for Vec<SecValueType>::to_sec`. */
  function ListToSec(l: seq<SecValueType>): (r: seq<SecValueType>)
    ensures |r| == |l|
    ensures forall i :: 0 <= i < |l| ==> AllLeaves(r[i], true) && NoSec(r[i]) == NoSec(l[i])
    ensures forall i :: 0 <= i < |l| && WellFormed(l[i]) ==> WellFormed(r[i])
    decreases List(l), 0
  {
    seq(|l|, i requires 0 <= i < |l| => ToSec(l[i]))
  }

  // ---------------------------------------------------------------------
  // Building from a plain tree: `SecFrom`.
  // ---------------------------------------------------------------------

  /**
   * `sec_from` (`secret`) or `nor_from` (`!secret`) of a plain tree: every
   * leaf at any depth gets the same flag. Object keys are normalised, and the
   * entries are collected into a new map, so keys that differ only in case
   * merge into one entry at the first one's position with the last one's value.
   */
  function FromPlain(p: Plain.ValueType, secret: bool): (r: SecValueType)
    ensures AllLeaves(r, secret)
    ensures WellFormed(r)
    decreases p, 1
  {
    match p
    case String(v) => String(SecValue(secret, v))
    case Bool(v) => Bool(SecValue(secret, v))
    case Number(v) => Number(SecValue(secret, v))
    case Float(v) => Float(SecValue(secret, v))
    case Ip(v) => Ip(SecValue(secret, v))
    case Obj(es) => Obj(FromPairs(EntriesFromPlain(es, secret)))
    case List(l) => List(ListFromPlain(l, secret))
  }

  /** The entries of a plain object, keys normalised and values tagged, before collecting. */
  function EntriesFromPlain(es: seq<(string, Plain.ValueType)>, secret: bool): (r: UniCaseMap<SecValueType>)
    ensures |r| == |es|
    ensures forall i :: 0 <= i < |es| ==> r[i].0 == Upper(es[i].0) && r[i].1 == FromPlain(es[i].1, secret)
    ensures forall i :: 0 <= i < |es| ==> AllLeaves(r[i].1, secret) && WellFormed(r[i].1)
    decreases Plain.Obj(es), 0
  {
    seq(|es|, i requires 0 <= i < |es| => (Upper(es[i].0), FromPlain(es[i].1, secret)))
  }

  /** `SecFrom<Vec<ValueType>>`: every element tagged, in order. */
  function ListFromPlain(l: seq<Plain.ValueType>, secret: bool): (r: seq<SecValueType>)
    ensures |r| == |l|
    ensures forall i :: 0 <= i < |l| ==> r[i] == FromPlain(l[i], secret)
    ensures forall i :: 0 <= i < |l| ==> AllLeaves(r[i], secret) && WellFormed(r[i])
    decreases Plain.List(l), 0
  {
    seq(|l|, i requires 0 <= i < |l| => FromPlain(l[i], secret))
  }

  /** `SecValueType::sec_from`. */
  function SecFrom(p: Plain.ValueType): (r: SecValueType)
    ensures AllLeaves(r, true) && WellFormed(r)
    ensures Plain.HasNormalKeys(p) ==> NoSec(r) == p
  {
    NoSecFromPlain(p, true);
    FromPlain(p, true)
  }

  /** `SecValueType::nor_from`. */
  function NorFrom(p: Plain.ValueType): (r: SecValueType)
    ensures AllLeaves(r, false) && WellFormed(r)
    ensures Plain.HasNormalKeys(p) ==> NoSec(r) == p
  {
    NoSecFromPlain(p, false);
    FromPlain(p, false)
  }

  // ---------------------------------------------------------------------
  // Properties of the conversions.
  // ---------------------------------------------------------------------

  /**
   * A tree is determined by its stripped form and a uniform flag: two trees
   * whose leaves all carry the same flag and whose plain forms agree are equal.
   */
  lemma {:induction false} StripAndFlagDetermineTree(a: SecValueType, b: SecValueType, secret: bool)
    requires AllLeaves(a, secret) && AllLeaves(b, secret)
    requires NoSec(a) == NoSec(b)
    ensures a == b
    decreases a
  {
    match a
    case Obj(m) =>
      var n := b.obj;
      assert |ObjNoSec(m)| == |ObjNoSec(n)|;
      forall i | 0 <= i < |m| ensures m[i] == n[i] {
        assert ObjNoSec(m)[i] == ObjNoSec(n)[i];
        StripAndFlagDetermineTree(m[i].1, n[i].1, secret);
      }
    case List(l) =>
      var k := b.items;
      assert |ListNoSec(l)| == |ListNoSec(k)|;
      forall i | 0 <= i < |l| ensures l[i] == k[i] {
        assert ListNoSec(l)[i] == ListNoSec(k)[i];
        StripAndFlagDetermineTree(l[i], k[i], secret);
      }
    case _ =>
  }

  /** A tree whose leaves are all secret is left as it is by `to_sec`. */
  lemma ToSecOfSecretTree(t: SecValueType)
    requires AllLeaves(t, true)
    ensures ToSec(t) == t
  {
    StripAndFlagDetermineTree(ToSec(t), t, true);
  }

  /** A tree whose leaves are all normal is left as it is by `to_nor`. */
  lemma ToNorOfNormalTree(t: SecValueType)
    requires AllLeaves(t, false)
    ensures ToNor(t) == t
  {
    StripAndFlagDetermineTree(ToNor(t), t, false);
  }

  /** `to_sec` and `to_nor` are idempotent. */
  lemma FlipsIdempotent(t: SecValueType)
    ensures ToSec(ToSec(t)) == ToSec(t)
    ensures ToNor(ToNor(t)) == ToNor(t)
  {
    ToSecOfSecretTree(ToSec(t));
    ToNorOfNormalTree(ToNor(t));
  }

  /** On a tree with no secret leaf, `to_nor` undoes `to_sec`; and the other way round. */
  lemma FlipsInverse(t: SecValueType)
    ensures AllLeaves(t, false) ==> ToNor(ToSec(t)) == t
    ensures AllLeaves(t, true) ==> ToSec(ToNor(t)) == t
  {
    if AllLeaves(t, false) {
      StripAndFlagDetermineTree(ToNor(ToSec(t)), t, false);
    }
    if AllLeaves(t, true) {
      StripAndFlagDetermineTree(ToSec(ToNor(t)), t, true);
    }
  }

  /**
   * Round trip: building from a plain tree whose keys are already normal and
   * distinct, then stripping, gives back that plain tree, leaves, key order
   * and list order included.
   */
  lemma {:induction false} NoSecFromPlain(p: Plain.ValueType, secret: bool)
    ensures Plain.HasNormalKeys(p) ==> NoSec(FromPlain(p, secret)) == p
    decreases p, 1
  {
    if Plain.HasNormalKeys(p) {
      match p
      case Obj(es) => NoSecFromPlainEntries(es, secret);
      case List(l) => NoSecFromPlainList(l, secret);
      case _ =>
    }
  }

  lemma {:induction false} NoSecFromPlainEntries(es: seq<(string, Plain.ValueType)>, secret: bool)
    requires Plain.HasNormalKeys(Plain.Obj(es))
    ensures ObjNoSec(FromPairs(EntriesFromPlain(es, secret))) == es
    decreases Plain.Obj(es), 0
  {
    var e := EntriesFromPlain(es, secret);
    forall i | 0 <= i < |es| ensures e[i].0 == es[i].0 {
      UpperOfNormal(es[i].0);
    }
    assert DistinctKeys(e) by {
      forall i, j | 0 <= i < j < |e| ensures e[i].0 != e[j].0 {
        assert e[i].0 == es[i].0 && e[j].0 == es[j].0;
      }
    }
    FromPairsDistinct(e);
    var q := ObjNoSec(e);
    forall i | 0 <= i < |es| ensures q[i] == es[i] {
      NoSecFromPlain(es[i].1, secret);
    }
    assert q == es;
  }

  lemma {:induction false} NoSecFromPlainList(l: seq<Plain.ValueType>, secret: bool)
    requires Plain.HasNormalKeys(Plain.List(l))
    ensures ListNoSec(ListFromPlain(l, secret)) == l
    decreases Plain.List(l), 0
  {
    var q := ListNoSec(ListFromPlain(l, secret));
    forall i | 0 <= i < |l| ensures q[i] == l[i] {
      NoSecFromPlain(l[i], secret);
    }
  }

  /**
   * The other direction: rebuilding a well-formed tree from its stripped
   * form gives the tree with every flag flipped to the requested state.
   */
  lemma FromPlainOfNoSec(t: SecValueType, secret: bool)
    requires WellFormed(t)
    ensures FromPlain(NoSec(t), secret) == if secret then ToSec(t) else ToNor(t)
  {
    var p := NoSec(t);
    NoSecFromPlain(p, secret);
    if secret {
      StripAndFlagDetermineTree(FromPlain(p, secret), ToSec(t), secret);
    } else {
      StripAndFlagDetermineTree(FromPlain(p, secret), ToNor(t), secret);
    }
  }

  /**
   * In a well-formed object the keys are distinct, so collecting the
   * converted entries back into a map, as the source does, rebuilds exactly
   * the pointwise conversion.
   */
  lemma CollectIsPointwise(m: UniCaseMap<SecValueType>)
    requires WellFormed(Obj(m))
    ensures FromPairs(ObjToSec(m)) == ObjToSec(m)
    ensures FromPairs(ObjToNor(m)) == ObjToNor(m)
    ensures FromPairs(ObjNoSec(m)) == ObjNoSec(m)
  {
    var a, b := ObjToSec(m), ObjToNor(m);
    assert forall i :: 0 <= i < |m| ==> a[i].0 == Keys(a)[i] == Keys(m)[i] == m[i].0;
    FromPairsSameKeys(m, a);
    assert forall i :: 0 <= i < |m| ==> b[i].0 == Keys(b)[i] == Keys(m)[i] == m[i].0;
    FromPairsSameKeys(m, b);
    FromPairsSameKeys(m, ObjNoSec(m));
  }

  // ---------------------------------------------------------------------
  // Ordering: `PartialOrd for SecValueType`.
  // ---------------------------------------------------------------------

  /** Both values are scalars of the same kind. */
  predicate SameScalarArm(a: SecValueType, b: SecValueType) {
    || (a.String? && b.String?)
    || (a.Bool? && b.Bool?)
    || (a.Number? && b.Number?)
    || (a.Float? && b.Float?)
    || (a.Ip? && b.Ip?)
  }

  /**
   * `partial_cmp`: two leaves of the same kind compare by payload, whatever
   * their flags; every other pairing is incomparable. The orders of `f64`
   * and `IpAddr` are the parameters `cmpFloat` and `cmpIp`.
   */
  function PartialCmp(a: SecValueType, b: SecValueType,
                      cmpFloat: (F64, F64) -> Option<Ordering>,
                      cmpIp: (IpAddr, IpAddr) -> Option<Ordering>): (r: Option<Ordering>)
    ensures r.Some? ==> SameScalarArm(a, b)
    ensures SameScalarArm(a, b) && !a.Float? && !a.Ip? ==> r.Some? && (r.value == Equal <==> NoSec(a) == NoSec(b))
    ensures a.String? && b.String? ==> r == Some(CmpString(a.str.value, b.str.value))
    ensures a.Bool? && b.Bool? ==> r == Some(CmpBool(a.flag.value, b.flag.value))
    ensures a.Number? && b.Number? ==> r == Some(CmpInt(a.num.value as int, b.num.value as int))
    ensures a.Float? && b.Float? ==> r == cmpFloat(a.float.value, b.float.value)
    ensures a.Ip? && b.Ip? ==> r == cmpIp(a.ip.value, b.ip.value)
  {
    match (a, b)
    case (String(x), String(y)) => SecLeaf.PartialCmp(x, y, (p, q) => Some(CmpString(p, q)))
    case (Bool(x), Bool(y)) => SecLeaf.PartialCmp(x, y, (p, q) => Some(CmpBool(p, q)))
    case (Number(x), Number(y)) => SecLeaf.PartialCmp(x, y, (p: u64, q: u64) => Some(CmpInt(p as int, q as int)))
    case (Float(x), Float(y)) => SecLeaf.PartialCmp(x, y, cmpFloat)
    case (Ip(x), Ip(y)) => SecLeaf.PartialCmp(x, y, cmpIp)
    case _ => None
  }

  /** The flags take no part in ordering: flipping either operand's tags changes no comparison. */
  lemma PartialCmpIgnoresSecrecy(a: SecValueType, b: SecValueType,
                                 cmpFloat: (F64, F64) -> Option<Ordering>,
                                 cmpIp: (IpAddr, IpAddr) -> Option<Ordering>)
    ensures PartialCmp(ToSec(a), b, cmpFloat, cmpIp) == PartialCmp(a, b, cmpFloat, cmpIp)
    ensures PartialCmp(ToNor(a), b, cmpFloat, cmpIp) == PartialCmp(a, b, cmpFloat, cmpIp)
    ensures PartialCmp(a, ToSec(b), cmpFloat, cmpIp) == PartialCmp(a, b, cmpFloat, cmpIp)
    ensures PartialCmp(a, ToNor(b), cmpFloat, cmpIp) == PartialCmp(a, b, cmpFloat, cmpIp)
  {
  }

  /**
   * Swapping the operands reverses the answer, provided the orders given for
   * `f64` and `IpAddr` do so too.
   */
  lemma PartialCmpAntisymmetric(a: SecValueType, b: SecValueType,
                                cmpFloat: (F64, F64) -> Option<Ordering>,
                                cmpIp: (IpAddr, IpAddr) -> Option<Ordering>)
    requires forall x, y :: cmpFloat(y, x) == ReverseOpt(cmpFloat(x, y))
    requires forall x, y :: cmpIp(y, x) == ReverseOpt(cmpIp(x, y))
    ensures PartialCmp(b, a, cmpFloat, cmpIp) == ReverseOpt(PartialCmp(a, b, cmpFloat, cmpIp))
  {
    if a.String? && b.String? {
      CmpStringAntisymmetric(a.str.value, b.str.value);
    }
  }

  // ---------------------------------------------------------------------
  // Display.
  // ---------------------------------------------------------------------

  /**
   * The text forms the model takes as given: `f64` and `IpAddr` display, and
   * the `{:#?}` debug rendering that containers display with.
   */
  datatype Formats = Formats(
    float: F64 -> string,
    ip: IpAddr -> string,
    objDebug: UniCaseMap<SecValueType> -> string,
    listDebug: seq<SecValueType> -> string)

  function BoolText(b: bool): string {
    if b then "true" else "false"
  }

  /**
   * `Display for SecValueType`: a secret leaf shows the mask whatever its
   * payload; a normal leaf shows its payload's text; containers show a
   * prefix and their debug rendering.
   */
  function Display(t: SecValueType, fmt: Formats): (r: string)
    ensures t.IsSecretLeaf() ==> r == Mask
    ensures t.String? && !t.str.isSecret ==> r == t.str.value
    ensures t.Bool? && !t.flag.isSecret ==> r == BoolText(t.flag.value)
    ensures t.Number? && !t.num.isSecret ==> r == NatToString(t.num.value as nat) && ParseUsize(r) == Some(t.num.value as nat)
    ensures t.Float? && !t.float.isSecret ==> r == fmt.float(t.float.value)
    ensures t.Ip? && !t.ip.isSecret ==> r == fmt.ip(t.ip.value)
    ensures t.Obj? ==> r == "obj:" + fmt.objDebug(t.obj)
    ensures t.List? ==> r == "list:" + fmt.listDebug(t.items)
  {
    match t
    case String(v) => SecLeaf.Display(v, s => s)
    case Bool(v) => SecLeaf.Display(v, BoolText)
    case Number(v) =>
      ParseNatToString(v.value as nat);
      SecLeaf.Display(v, (n: u64) => NatToString(n as nat))
    case Float(v) => SecLeaf.Display(v, fmt.float)
    case Ip(v) => SecLeaf.Display(v, fmt.ip)
    case Obj(m) => "obj:" + fmt.objDebug(m)
    case List(l) => "list:" + fmt.listDebug(l)
  }

  /** Any two secret leaves display alike, so the text reveals nothing of the payload. */
  lemma SecretLeavesDisplayAlike(a: SecValueType, b: SecValueType, fmt: Formats)
    requires a.IsSecretLeaf() && b.IsSecretLeaf()
    ensures Display(a, fmt) == Display(b, fmt) == Mask
  {
  }

  /** After `to_sec`, every scalar displays as the mask. */
  lemma ToSecMasksLeaf(t: SecValueType, fmt: Formats)
    requires t.IsScalar()
    ensures Display(ToSec(t), fmt) == Mask
  {
  }
}

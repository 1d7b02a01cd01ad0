/**
 * The plain, untagged value tree (`ValueType`) that the configuration
 * loader hands over and receives back. Its objects are insertion-ordered
 * maps from `String` keys (`IndexMap<String, ValueType>`).
 */
module Plain {
  import opened Scalars
  import opened Types
  import opened IndexMap

  datatype ValueType =
    | String(str: string)
    | Bool(boolean: bool)
    | Number(num: u64)
    | Float(float: F64)
    | Ip(ip: IpAddr)
    | Obj(entries: seq<(string, ValueType)>)
    | List(elems: seq<ValueType>)

  /**
   * Every object key is already in `UpperKey` normal form and distinct:
   * the trees that survive a trip through the secret tree unchanged.
   */
  predicate HasNormalKeys(p: ValueType)
    decreases p
  {
    match p
    case Obj(es) =>
      && DistinctKeys(es)
      && (forall i :: 0 <= i < |es| ==> IsUpperNormal(es[i].0))
      && (forall i :: 0 <= i < |es| ==> HasNormalKeys(es[i].1))
    case List(l) => forall i :: 0 <= i < |l| ==> HasNormalKeys(l[i])
    case _ => true
  }
}

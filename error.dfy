/**
 * The crate's error reasons. `SecReason` names the security failures, each
 * with a message; `OrionSecReason` holds either one of them or a general
 * `UvsReason` of the error library. A reason has a display text and a
 * numeric error code.
 */
module Reasons {
  import opened Scalars

  /** The error library's general reason. Its text and its code are given to the model as parameters. */
  type UvsReason(==)

  datatype SecReason =
    | SensitiveMsg(msg: string)
    | NoPermission(msg: string)
    | Deception(msg: string)
    | UnAuthenticated(msg: string)

  datatype OrionSecReason = Sec(sec: SecReason) | Uvs(uvs: UvsReason)

  /** Both reasons are of the same variant, whatever their messages. */
  predicate SameKind(a: SecReason, b: SecReason) {
    || (a.SensitiveMsg? && b.SensitiveMsg?)
    || (a.NoPermission? && b.NoPermission?)
    || (a.Deception? && b.Deception?)
    || (a.UnAuthenticated? && b.UnAuthenticated?)
  }

  /** The fixed words in front of the message. */
  function Prefix(r: SecReason): (p: string)
    ensures |p| > 0 && p[|p| - 1] == ' '
    ensures r.SensitiveMsg? ==> p == "sensitive msg "
    ensures r.NoPermission? ==> p == "no permission "
    ensures r.Deception? ==> p == "deception "
    ensures r.UnAuthenticated? ==> p == "un authenticated "
  {
    match r
    case SensitiveMsg(_) => "sensitive msg "
    case NoPermission(_) => "no permission "
    case Deception(_) => "deception "
    case UnAuthenticated(_) => "un authenticated "
  }

  /** `Display for SecReason`: the variant's words, then the message as it is. */
  function SecReasonText(r: SecReason): (t: string)
    ensures |t| == |Prefix(r)| + |r.msg|
    ensures t[..|Prefix(r)|] == Prefix(r) && t[|Prefix(r)|..] == r.msg
  {
    Prefix(r) + r.msg
  }

  /** `Display for OrionSecReason`: either variant shows the text of the reason it holds. */
  function OrionText(r: OrionSecReason, uvsText: UvsReason -> string): (t: string)
    ensures r.Sec? ==> |t| >= |Prefix(r.sec)| && t[..|Prefix(r.sec)|] == Prefix(r.sec) && t[|Prefix(r.sec)|..] == r.sec.msg
    ensures r.Uvs? ==> t == uvsText(r.uvs)
  {
    match r
    case Sec(s) => SecReasonText(s)
    case Uvs(u) => uvsText(u)
  }

  /** The codes of `SecReason`: one per variant, all ending in `01`. */
  function SecCode(r: SecReason): (c: i32)
    ensures c % 100 == 1 && 101 <= c <= 401
    ensures r.SensitiveMsg? ==> c == 101
    ensures r.NoPermission? ==> c == 201
    ensures r.Deception? ==> c == 301
    ensures r.UnAuthenticated? ==> c == 401
  {
    match r
    case SensitiveMsg(_) => 101
    case NoPermission(_) => 201
    case Deception(_) => 301
    case UnAuthenticated(_) => 401
  }

  /** `ErrorCode for OrionSecReason`: a wrapped general reason keeps its own code. */
  function ErrorCode(r: OrionSecReason, uvsCode: UvsReason -> i32): (c: i32)
    ensures r.Sec? ==> c == SecCode(r.sec) && c % 100 == 1 && 101 <= c <= 401
    ensures r.Uvs? ==> c == uvsCode(r.uvs)
  {
    match r
    case Sec(s) => SecCode(s)
    case Uvs(u) => uvsCode(u)
  }

  // ---------------------------------------------------------------------
  // Properties.
  // ---------------------------------------------------------------------

  /** The words tell the variant. */
  lemma PrefixIsKind(a: SecReason, b: SecReason)
    ensures Prefix(a) == Prefix(b) <==> SameKind(a, b)
  {
    if Prefix(a) == Prefix(b) {
      assert Prefix(a)[0] == Prefix(b)[0];
    }
  }

  /** The code tells the variant and nothing of the message. */
  lemma SecCodeIsKind(a: SecReason, b: SecReason)
    ensures SecCode(a) == SecCode(b) <==> SameKind(a, b)
  {
  }

  /** Different reasons display differently: the text gives back the variant and the message. */
  lemma SecReasonTextInjective(a: SecReason, b: SecReason)
    ensures SecReasonText(a) == SecReasonText(b) <==> a == b
  {
    var ta, tb := SecReasonText(a), SecReasonText(b);
    if ta == tb {
      assert ta[0] == Prefix(a)[0] && tb[0] == Prefix(b)[0];
      assert SameKind(a, b);
      assert a.msg == ta[|Prefix(a)|..] == tb[|Prefix(b)|..] == b.msg;
    }
  }

  /** Two security reasons of `OrionSecReason` are equal exactly when their texts are. */
  lemma OrionTextInjectiveOnSec(a: SecReason, b: SecReason, uvsText: UvsReason -> string)
    ensures OrionText(Sec(a), uvsText) == OrionText(Sec(b), uvsText) <==> Sec(a) == Sec(b)
  {
    SecReasonTextInjective(a, b);
  }

  /** A sensitive-message reason displays as in the crate's own example. */
  lemma SensitiveMsgText()
    ensures SecReasonText(SensitiveMsg("test message")) == "sensitive msg test message"
  {
  }

  /** Reasons compare by variant and message. */
  lemma ReasonEquality()
    ensures Sec(SensitiveMsg("a")) == Sec(SensitiveMsg("a"))
    ensures Sec(SensitiveMsg("a")) != Sec(SensitiveMsg("b"))
  {
  }

  /** A sensitive-message error shows its message and has code 101. */
  lemma SensitiveMsgError(msg: string, uvsText: UvsReason -> string, uvsCode: UvsReason -> i32)
    ensures var t := OrionText(Sec(SensitiveMsg(msg)), uvsText);
            t == "sensitive msg " + msg && t[14..] == msg
    ensures ErrorCode(Sec(SensitiveMsg(msg)), uvsCode) == 101
  {
  }
}

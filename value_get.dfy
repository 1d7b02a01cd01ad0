/**
 * `ValueGetter::value_get` on a secret object: a path of `.`-separated
 * segments, each a key or `key[n]`, resolved from the root object down.
 * Keys are looked up in normal form, so lookups ignore letter case. Every
 * failure (missing key, index out of range, a segment that is not a list
 * where `[n]` asks for one, descent through a non-object) reads as `None`.
 */
module SecPath {
  import opened Wrappers
  import opened Scalars
  import opened Types
  import opened IndexMap
  import opened Decimal
  import opened SecTree

  // ---------------------------------------------------------------------
  // Text helpers: `str::find` and `str::split`.
  // ---------------------------------------------------------------------

  /** `str::find(c)`: the first position of `c`. */
  function Find(s: string, c: char): (r: Option<nat>)
    ensures r.Some? ==> r.value < |s| && s[r.value] == c
    ensures r.Some? ==> forall j :: 0 <= j < r.value ==> s[j] != c
    ensures r.None? ==> forall j :: 0 <= j < |s| ==> s[j] != c
    decreases |s|
  {
    if |s| == 0 then None
    else if s[0] == c then Some(0)
    else
      match Find(s[1..], c)
      case None => None
      case Some(j) => Some(j + 1)
  }

  lemma FindIs(s: string, c: char, j: nat)
    requires j < |s| && s[j] == c
    requires forall i :: 0 <= i < j ==> s[i] != c
    ensures Find(s, c) == Some(j)
  {
  }

  lemma FindAbsent(s: string, c: char)
    requires forall i :: 0 <= i < |s| ==> s[i] != c
    ensures Find(s, c) == None
  {
  }

  /** The pieces joined back with the separator between them. */
  function Join(parts: seq<string>, sep: char): string
  {
    if |parts| == 0 then ""
    else if |parts| == 1 then parts[0]
    else parts[0] + [sep] + Join(parts[1..], sep)
  }

  /** `str::split(sep)`: the pieces between separators, empty ones included; never none. */
  function Split(s: string, sep: char): (r: seq<string>)
    ensures |r| >= 1
    decreases |s|
  {
    match Find(s, sep)
    case None => [s]
    case Some(i) => [s[..i]] + Split(s[i + 1..], sep)
  }

  /** No piece of a split holds the separator. */
  lemma {:induction false} SplitPieces(s: string, sep: char)
    ensures forall i :: 0 <= i < |Split(s, sep)| ==> sep !in Split(s, sep)[i]
    decreases |s|
  {
    match Find(s, sep)
    case None =>
    case Some(i) =>
      SplitPieces(s[i + 1..], sep);
      assert sep !in s[..i] by {
        forall j | 0 <= j < i ensures s[..i][j] != sep {
          assert s[..i][j] == s[j];
        }
      }
  }

  /** Splitting undoes joining pieces that hold no separator. */
  lemma {:induction false} SplitJoin(parts: seq<string>, sep: char)
    requires |parts| >= 1
    requires forall i :: 0 <= i < |parts| ==> sep !in parts[i]
    ensures Split(Join(parts, sep), sep) == parts
    decreases |parts|
  {
    if |parts| == 1 {
      FindAbsent(parts[0], sep);
      SplitWhole(parts[0], sep);
    } else {
      var s := Join(parts, sep);
      var p := parts[0];
      assert s == p + [sep] + Join(parts[1..], sep);
      FindIs(s, sep, |p|);
      SplitAt(s, sep, |p|);
      assert s[..|p|] == p && s[|p| + 1..] == Join(parts[1..], sep);
      SplitJoin(parts[1..], sep);
      assert parts == [p] + parts[1..];
    }
  }

  /** Joining the pieces of a split gives the text back. */
  lemma {:induction false} JoinSplit(s: string, sep: char)
    ensures Join(Split(s, sep), sep) == s
    decreases |s|
  {
    match Find(s, sep)
    case None =>
    case Some(i) =>
      var rest := Split(s[i + 1..], sep);
      JoinSplit(s[i + 1..], sep);
      assert ([s[..i]] + rest)[1..] == rest;
      assert s == s[..i] + [sep] + s[i + 1..];
  }

  /** `Split` at its first separator, and with none. */
  lemma SplitAt(s: string, sep: char, i: nat)
    requires Find(s, sep) == Some(i)
    ensures Split(s, sep) == [s[..i]] + Split(s[i + 1..], sep)
  {
  }

  lemma SplitWhole(s: string, sep: char)
    requires Find(s, sep) == None
    ensures Split(s, sep) == [s]
  {
  }

  /** Splitting at a separator splits the two sides independently. */
  lemma {:induction false} SplitConcat(p: string, q: string, sep: char)
    ensures Split(p + [sep] + q, sep) == Split(p, sep) + Split(q, sep)
    decreases |p|
  {
    var s := p + [sep] + q;
    var f := Find(p, sep);
    if f.None? {
      FindConcat(p, q, sep, |p|);
      SplitAt(s, sep, |p|);
      SplitWhole(p, sep);
      SlicesOfConcat(p, q, sep, |p|);
    } else {
      var i := f.value;
      FindConcat(p, q, sep, i);
      SplitAt(s, sep, i);
      SplitAt(p, sep, i);
      SlicesOfConcat(p, q, sep, i);
      var head, tail := p[..i], p[i + 1..];
      SplitConcat(tail, q, sep);
      var x, y := Split(tail, sep), Split(q, sep);
      calc {
        Split(s, sep);
        [head] + Split(tail + [sep] + q, sep);
        [head] + (x + y);
        { SeqAssoc([head], x, y); }
        ([head] + x) + y;
        Split(p, sep) + y;
      }
    }
  }

  lemma SeqAssoc<T>(a: seq<T>, b: seq<T>, c: seq<T>)
    ensures a + (b + c) == (a + b) + c
  {
  }

  /** The two sides of `p + [sep] + q` around position `i` of `p`, or around the `sep` itself. */
  lemma SlicesOfConcat(p: string, q: string, sep: char, i: nat)
    requires i <= |p|
    ensures (p + [sep] + q)[..i] == p[..i]
    ensures i < |p| ==> (p + [sep] + q)[i + 1..] == p[i + 1..] + [sep] + q
    ensures i == |p| ==> (p + [sep] + q)[..i] == p && (p + [sep] + q)[i + 1..] == q
  {
  }

  lemma FindConcat(p: string, q: string, sep: char, i: nat)
    requires i <= |p|
    requires i < |p| ==> Find(p, sep) == Some(i)
    requires i == |p| ==> Find(p, sep) == None
    ensures Find(p + [sep] + q, sep) == Some(i)
  {
    var s := p + [sep] + q;
    assert forall j :: 0 <= j < |p| ==> s[j] == p[j];
    assert s[i] == sep;
    FindIs(s, sep, i);
  }

  // ---------------------------------------------------------------------
  // One segment.
  // ---------------------------------------------------------------------

  /**
   * `part` is `key`, then `[`, then a decimal text of `n`, then `]`.
   */
  predicate IsIndexed(part: string, key: string, n: nat) {
    && |key| + 2 <= |part|
    && part[..|key|] == key
    && part[|key|] == '['
    && part[|part| - 1] == ']'
    && ParseUsize(part[|key| + 1..|part| - 1]) == Some(n)
  }

  /**
   * `parse_index`: a segment `key[n]` -- a `[`, a final `]`, and between
   * them text that reads as a `usize` -- gives the key before the first `[`
   * and the index. Anything else gives `None`.
   */
  function ParseIndex(part: string): (r: Option<(string, nat)>)
    ensures r.Some? ==> '[' !in r.value.0 && r.value.1 < U64_LIMIT && IsIndexed(part, r.value.0, r.value.1)
    ensures '[' !in part || part[|part| - 1] != ']' ==> r == None
  {
    match Find(part, '[')
    case None => None
    case Some(start) =>
      if part[|part| - 1] != ']' then None
      else
        var text := part[start + 1..|part| - 1];
        match ParseUsize(text)
        case None => None
        case Some(n) => Some((part[..start], n))
  }

  /** Every `key[n]` with a bracket-free key and a decimal index parses back to that key and index. */
  lemma ParseIndexOfIndexed(key: string, n: nat)
    requires '[' !in key && n < U64_LIMIT
    ensures ParseIndex(key + "[" + NatToString(n) + "]") == Some((key, n))
  {
    var d := NatToString(n);
    var part := key + "[" + d + "]";
    FindIs(part, '[', |key|);
    assert part[..|key|] == key;
    assert part[|key| + 1..|part| - 1] == d;
    ParseNatToString(n);
  }

  /** `as_obj`: the map of an object, `None` for anything else. */
  function AsObj(v: SecValueType): (r: Option<UniCaseMap<SecValueType>>)
    ensures r.Some? <==> v.Obj?
    ensures r.Some? ==> v == Obj(r.value)
  {
    match v
    case Obj(m) => Some(m)
    case _ => None
  }

  /**
   * The value one segment selects in object `obj`: for `key[n]`, element `n`
   * of the list under `key`; for any other segment, the value under the
   * segment taken as a key.
   */
  function LookupSegment(obj: UniCaseMap<SecValueType>, part: string): Option<SecValueType>
  {
    match ParseIndex(part)
    case Some((key, index)) =>
      var value := Get(obj, Upper(key));
      if value.Some? && value.value.List? && index < |value.value.items|
      then Some(value.value.items[index])
      else None
    case None => Get(obj, Upper(part))
  }

  // ---------------------------------------------------------------------
  // A whole path.
  // ---------------------------------------------------------------------

  /** The value that the segments `parts` select, starting from object `obj`. */
  function Resolve(obj: UniCaseMap<SecValueType>, parts: seq<string>): Option<SecValueType>
    decreases |parts|, 0
  {
    if |parts| == 0 then None
    else
      match LookupSegment(obj, parts[0])
      case None => None
      case Some(v) => Continue(v, parts[1..])
  }

  /** Carry on from value `v` with the segments `rest`: that needs `v` to be an object, unless none remain. */
  function Continue(v: SecValueType, rest: seq<string>): Option<SecValueType>
    decreases |rest|, 1
  {
    if |rest| == 0 then Some(v)
    else
      match v
      case Obj(m) => Resolve(m, rest)
      case _ => None
  }

  /** What `value_get(path)` returns. */
  function PathValue(root: UniCaseMap<SecValueType>, path: string): Option<SecValueType>
  {
    Resolve(root, Split(path, '.'))
  }

  /**
   * `value_get`: walks the segments with two cursors, the value reached so
   * far and that value as an object, and stops at the first miss.
   */
  method ValueGet(root: UniCaseMap<SecValueType>, path: string) returns (r: Option<SecValueType>)
    ensures r == PathValue(root, path)
  {
    var parts := Split(path, '.');
    var currentValue: Option<SecValueType> := None;
    var currentObj: Option<UniCaseMap<SecValueType>> := Some(root);
    var i := 0;
    while i < |parts|
      invariant 0 <= i <= |parts|
      invariant i == 0 ==> currentValue == None && currentObj == Some(root)
      invariant i > 0 ==> currentValue.Some? && currentObj == AsObj(currentValue.value)
      invariant i > 0 ==> Resolve(root, parts) == Continue(currentValue.value, parts[i..])
    {
      var part := parts[i];
      var obj := if currentObj.Some? then currentObj
                 else if currentValue.Some? then AsObj(currentValue.value)
                 else None;
      if obj.None? {
        return None;
      }
      CursorStep(root, parts, i, currentValue, obj.value);
      var found := SegmentStep(obj.value, part);
      if found.None? {
        return None;
      }
      currentValue := found;
      currentObj := AsObj(found.value);
      i := i + 1;
    }
    return currentValue;
  }

  /** The body of the loop in `ValueGet` for one segment, `None` where the source returns early. */
  method SegmentStep(obj: UniCaseMap<SecValueType>, part: string) returns (found: Option<SecValueType>)
    ensures found == LookupSegment(obj, part)
  {
    match ParseIndex(part) {
      case Some((key, index)) =>
        var value := Get(obj, Upper(key));
        if value.None? || !value.value.List? {
          return None;
        }
        var list := value.value.items;
        if index >= |list| {
          return None;
        }
        found := Some(list[index]);
      case None =>
        found := Get(obj, Upper(part));
    }
  }

  /** One turn of the loop in `ValueGet`: what remains is resolved from the current object. */
  lemma CursorStep(root: UniCaseMap<SecValueType>, parts: seq<string>, i: nat,
                   currentValue: Option<SecValueType>, obj: UniCaseMap<SecValueType>)
    requires i < |parts|
    requires i == 0 ==> currentValue == None && obj == root
    requires i > 0 ==> currentValue == Some(Obj(obj)) && Resolve(root, parts) == Continue(currentValue.value, parts[i..])
    ensures Resolve(root, parts) == match LookupSegment(obj, parts[i])
                                    case None => None
                                    case Some(v) => Continue(v, parts[i + 1..])
  {
    assert parts[i..][0] == parts[i] && parts[i..][1..] == parts[i + 1..];
    if i == 0 {
      assert parts[0..] == parts;
    }
  }

  // ---------------------------------------------------------------------
  // What a path means.
  // ---------------------------------------------------------------------

  /** Resolving `a` then `b`: what `a` reaches must be an object for `b` to go on from it. */
  lemma {:induction false} ResolveAppend(obj: UniCaseMap<SecValueType>, a: seq<string>, b: seq<string>)
    requires |a| >= 1 && |b| >= 1
    ensures var v := Resolve(obj, a);
            Resolve(obj, a + b) == if v.Some? && v.value.Obj? then Resolve(v.value.obj, b) else None
    decreases |a|
  {
    assert (a + b)[0] == a[0];
    assert (a + b)[1..] == a[1..] + b;
    match LookupSegment(obj, a[0])
    case None =>
    case Some(v) =>
      if |a| == 1 {
        assert a[1..] + b == b;
      } else if v.Obj? {
        ResolveAppend(v.obj, a[1..], b);
      }
  }

  /**
   * The path `p.q` reaches what `q` reaches from the object that `p`
   * reaches; going on from a value that is not an object fails.
   */
  lemma PathConcat(root: UniCaseMap<SecValueType>, p: string, q: string)
    ensures var v := PathValue(root, p);
            PathValue(root, p + "." + q) == if v.Some? && v.value.Obj? then PathValue(v.value.obj, q) else None
  {
    assert p + "." + q == p + ['.'] + q;
    SplitConcat(p, q, '.');
    ResolveAppend(root, Split(p, '.'), Split(q, '.'));
  }

  /** A segment that does not read as `key[n]` is looked up whole, as a key. */
  lemma PathOfKey(root: UniCaseMap<SecValueType>, key: string)
    requires '.' !in key && ParseIndex(key) == None
    ensures PathValue(root, key) == Get(root, Upper(key))
  {
    FindAbsent(key, '.');
    assert Split(key, '.') == [key];
    SingleSegment(root, key);
  }

  /** A path of one segment selects what that segment selects in the root. */
  lemma SingleSegment(root: UniCaseMap<SecValueType>, part: string)
    ensures Resolve(root, [part]) == LookupSegment(root, part)
  {
    assert [part][0] == part && [part][1..] == [];
    match LookupSegment(root, part)
    case None =>
    case Some(v) => assert Continue(v, []) == Some(v);
  }

  /** A segment without `[` never reads as `key[n]`. */
  lemma ParseIndexOfPlain(part: string)
    requires '[' !in part
    ensures ParseIndex(part) == None
  {
    FindAbsent(part, '[');
  }

  /**
   * The segment `key[n]` selects element `n` of the list under `key`, and
   * nothing when `key` is missing, holds no list, or the list is too short.
   */
  lemma PathOfIndexed(root: UniCaseMap<SecValueType>, key: string, n: nat)
    requires '.' !in key && '[' !in key && n < U64_LIMIT
    ensures var v := Get(root, Upper(key));
            PathValue(root, key + "[" + NatToString(n) + "]")
              == if v.Some? && v.value.List? && n < |v.value.items| then Some(v.value.items[n]) else None
  {
    var d := NatToString(n);
    var part := key + "[" + d + "]";
    assert forall i :: 0 <= i < |part| ==> part[i] != '.' by {
      forall i | 0 <= i < |part|
        ensures part[i] != '.'
      {
        if |key| < i < |key| + 1 + |d| {
          assert part[i] == d[i - |key| - 1];
        }
      }
    }
    FindAbsent(part, '.');
    assert Split(part, '.') == [part];
    SingleSegment(root, part);
    ParseIndexOfIndexed(key, n);
  }

  // ---------------------------------------------------------------------
  // Letter case does not matter.
  // ---------------------------------------------------------------------

  /** A character that upper-casing neither produces nor changes. */
  predicate IsCaseless(c: char) {
    !IsLowerAscii(c) && !('A' <= c <= 'Z')
  }

  lemma FindUpper(s: string, c: char)
    requires IsCaseless(c)
    ensures Find(Upper(s), c) == Find(s, c)
  {
    match Find(s, c)
    case None => FindAbsent(Upper(s), c);
    case Some(j) => FindIs(Upper(s), c, j);
  }

  /** Upper-casing a path upper-cases each of its segments. */
  lemma {:induction false} SplitUpper(s: string, sep: char)
    requires IsCaseless(sep)
    ensures |Split(Upper(s), sep)| == |Split(s, sep)|
    ensures forall i :: 0 <= i < |Split(s, sep)| ==> Split(Upper(s), sep)[i] == Upper(Split(s, sep)[i])
    decreases |s|
  {
    var u := Upper(s);
    FindUpper(s, sep);
    match Find(s, sep)
    case None =>
      SplitWhole(s, sep);
      SplitWhole(u, sep);
    case Some(i) =>
      var head, tail := s[..i], s[i + 1..];
      UpperSlice(s, 0, i);
      UpperSlice(s, i + 1, |s|);
      assert s[0..i] == head && s[i + 1..|s|] == tail;
      assert u[0..i] == u[..i] && u[i + 1..|s|] == u[i + 1..];
      SplitAt(s, sep, i);
      SplitAt(u, sep, i);
      SplitUpper(tail, sep);
      var a, b := Split(tail, sep), Split(Upper(tail), sep);
      ConsUpper(Split(s, sep), Split(u, sep), head, a, b);
  }

  /** Prepending a piece and its upper-cased form keeps two lists piecewise upper-cased. */
  lemma ConsUpper(whole: seq<string>, upper: seq<string>, head: string, a: seq<string>, b: seq<string>)
    requires whole == [head] + a && upper == [Upper(head)] + b
    requires |b| == |a| && forall i :: 0 <= i < |a| ==> b[i] == Upper(a[i])
    ensures |upper| == |whole|
    ensures forall k :: 0 <= k < |whole| ==> upper[k] == Upper(whole[k])
  {
    forall k | 0 <= k < |whole|
      ensures upper[k] == Upper(whole[k])
    {
      if k > 0 {
        assert whole[k] == a[k - 1] && upper[k] == b[k - 1];
      }
    }
  }

  lemma ParseUsizeUpper(t: string)
    ensures ParseUsize(Upper(t)) == ParseUsize(t)
  {
    if IsUpperNormal(t) {
      UpperOfNormal(t);
    } else {
      var k :| 0 <= k < |t| && IsLowerAscii(t[k]);
      var u := Upper(t);
      assert !IsDigit(u[k]) && u[k] != '+';
      if t[0] == '+' {
        assert u[0] == '+' && k > 0;
        assert t[1..][k - 1] == t[k] && u[1..][k - 1] == u[k];
      } else {
        assert u[0] != '+';
      }
    }
  }

  /** `parse_index` of a segment with a `[` at `start` and a final `]`: it all rests on the text between. */
  lemma ParseIndexAt(part: string, start: nat)
    requires Find(part, '[') == Some(start) && part[|part| - 1] == ']'
    ensures var n := ParseUsize(part[start + 1..|part| - 1]);
            ParseIndex(part) == if n.Some? then Some((part[..start], n.value)) else None
  {
  }

  /** `parse_index` of a segment without a `[`, or not ending in `]`. */
  lemma ParseIndexNone(part: string)
    requires Find(part, '[') == None || part[|part| - 1] != ']'
    ensures ParseIndex(part) == None
  {
  }

  /** Upper-casing a segment upper-cases the key it names and keeps its index. */
  lemma ParseIndexUpper(part: string)
    ensures var r := ParseIndex(part);
            ParseIndex(Upper(part)) == if r.Some? then Some((Upper(r.value.0), r.value.1)) else None
  {
    var u := Upper(part);
    FindUpper(part, '[');
    var f := Find(part, '[');
    if f.Some? && part[|part| - 1] == ']' {
      var start, last := f.value, |part| - 1;
      assert u[last] == ']';
      UpperSlice(part, start + 1, last);
      UpperSlice(part, 0, start);
      assert u[0..start] == u[..start] && part[0..start] == part[..start];
      ParseUsizeUpper(part[start + 1..last]);
      ParseIndexAt(part, start);
      ParseIndexAt(u, start);
    } else {
      assert f.Some? ==> u[|u| - 1] != ']';
      ParseIndexNone(part);
      ParseIndexNone(u);
    }
  }

  lemma LookupSegmentUpper(obj: UniCaseMap<SecValueType>, part: string)
    ensures LookupSegment(obj, Upper(part)) == LookupSegment(obj, part)
  {
    ParseIndexUpper(part);
    UpperIdempotent(part);
    match ParseIndex(part)
    case None =>
    case Some((key, n)) => UpperIdempotent(key);
  }

  lemma {:induction false} ResolveUpper(obj: UniCaseMap<SecValueType>, parts: seq<string>, upper: seq<string>)
    requires |upper| == |parts|
    requires forall i :: 0 <= i < |parts| ==> upper[i] == Upper(parts[i])
    ensures Resolve(obj, upper) == Resolve(obj, parts)
    decreases |parts|
  {
    if |parts| > 0 {
      LookupSegmentUpper(obj, parts[0]);
      match LookupSegment(obj, parts[0])
      case None =>
      case Some(v) =>
        if |parts| > 1 && v.Obj? {
          ResolveUpper(v.obj, parts[1..], upper[1..]);
        }
    }
  }

  /** Paths are case-insensitive: upper-casing a path selects the same value. */
  lemma PathUpper(root: UniCaseMap<SecValueType>, path: string)
    ensures PathValue(root, Upper(path)) == PathValue(root, path)
  {
    SplitUpper(path, '.');
    ResolveUpper(root, Split(path, '.'), Split(Upper(path), '.'));
  }

  /** Paths that differ only in ASCII letter case reach the same value. */
  lemma PathIgnoresCase(root: UniCaseMap<SecValueType>, p: string, q: string)
    requires EqualIgnoringCase(p, q)
    ensures PathValue(root, p) == PathValue(root, q)
  {
    UpperIgnoresCase(p, q);
    PathUpper(root, p);
    PathUpper(root, q);
  }
}

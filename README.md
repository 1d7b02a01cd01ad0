# orion-sec: secret-tagged configuration values

orion-sec wraps configuration values so that each value carries a flag saying
whether it is secret. A secret value displays as `***`. Its payload is still
there, and it still compares, converts and strips like any other value. This
project models the crate's core in Dafny:

- `SecValue<T>`: a payload paired with its secrecy flag; the conversions that
  set or clear the flag (`to_sec`, `to_nor`), its construction (`sec_from`,
  `nor_from`), its ordering and its display.
- `SecValueType`: the tree of tagged values (strings, booleans, `u64`, `f64`,
  IP addresses, objects and lists). The model covers building it from a plain
  `ValueType` tree, flipping every flag, stripping the flags (`no_sec`),
  ordering, and display.
- `value_get`: resolving a `.`-separated path with `key[n]` list indexing
  through nested objects (`parse_index`, `as_obj`).
- The error reasons `SecReason` and `OrionSecReason`, their display texts and
  their error codes.

Objects are `UniCaseMap`s. They are insertion-ordered maps whose keys are kept
in upper-case normal form, so lookups ignore letter case.

The model has one module per file:

- `Wrappers`, `Scalars`, `Order`, `Decimal`: option type, scalar payloads,
  orderings and decimal text of integers.
- `Types`: the normalised key and the map type.
- `IndexMap`: insertion-ordered maps as association lists.
- `Plain`: the untagged tree.
- `SecLeaf`: `SecValue<T>`.
- `SecTree`: `SecValueType`.
- `SecPath`: `value_get`.
- `Reasons`: errors.

Most of the source is expression-shaped, and the model follows it with
datatypes, recursive functions and lemmas. Two places change state step by
step, and there the model uses methods with loops:

- the loops that flip the flags of a `Vec<SecValue<T>>` or a
  `UniCaseMap<SecValue<T>>` in place;
- the cursor loop of `value_get`.

`ValueGet` and its loop body `SegmentStep` are proved equal to the
specification functions `PathValue` and `LookupSegment`. The flag-flipping
loops state their results directly: the sequence or map they return has the
same length, keys, order and payloads as their input, with every flag set as
requested.

The main results:

- **Flipping flags.** `to_sec` and `to_nor` touch only the flags. They are
  idempotent. Each undoes the other on a tree whose leaves already had the
  target flag.
- **Round trips.** Building a tagged tree from a plain tree, then stripping
  it, gives the plain tree back, provided its keys are already normal and
  distinct. In the other direction, rebuilding from the stripped form gives
  the tree with every flag set as requested.
- **Ordering.** It ignores the flags, and swapping the operands reverses the
  result.
- **Display.** Any two secret leaves display alike.
- **Paths.**
  - A path `p.q` means "resolve `q` in the object that `p` reaches".
  - `key[n]` selects list element `n`.
  - Paths are case-insensitive.
  - The loop in `value_get` computes exactly that meaning.
- **Errors.** Error codes tell the variant of a `SecReason`, and display texts
  tell the whole reason.

## Model

| member | source | states |
|---|---|---|
| SecLeaf.SecValue.ToNor | src/sec.rs:51-54 | `to_nor` clears the flag and keeps the payload |
| SecLeaf.SecValue.ToSec | src/sec.rs:55-58 | `to_sec` sets the flag and keeps the payload |
| SecLeaf.SecFrom | src/sec.rs:146-151 | `sec_from` wraps a payload flagged secret |
| SecLeaf.NorFrom | src/sec.rs:152-157 | `nor_from` wraps a payload flagged normal |
| SecLeaf.PartialCmp | src/sec.rs:31-38 | comparing two `SecValue`s gives the payloads' comparison, whatever either flag is |
| SecLeaf.Display | src/sec.rs:159-170 | a secret value shows `***`; a normal one shows its payload's text |
| SecLeaf.FlipIdempotent | src/sec.rs:50-59 | applying `to_sec` (or `to_nor`) twice equals applying it once |
| SecLeaf.FlipInverse | src/sec.rs:50-59 | `to_nor` undoes `to_sec` on a normal value, and `to_sec` undoes `to_nor` on a secret one |
| SecLeaf.SecretDisplayHidesPayload | src/sec.rs:163-169 | two secret values of any payload types and formats display identically, as `***` |
| SecLeaf.VecToNor | src/sec.rs:62-67 | the in-place loop leaves every element normal, with its payload, in the same order and number |
| SecLeaf.VecToSec | src/sec.rs:69-74 | the in-place loop leaves every element secret, with its payload, in the same order and number |
| SecLeaf.MapToNor | src/sec.rs:78-81 | every entry ends up normal; keys, order and payloads are unchanged |
| SecLeaf.MapToSec | src/sec.rs:83-86 | every entry ends up secret; keys, order and payloads are unchanged |
| SecTree.NoSec | src/sec.rs:277-289 | stripping keeps the arm and the payload: each scalar leaf becomes the plain leaf of the same kind holding the same payload, an object stays an object and a list a list; a well-formed tree strips to one with normal, distinct keys |
| SecTree.ObjNoSec | src/sec.rs:297-302 | an object strips entry by entry: same number of entries, each key's text and position kept, each value its stripped form |
| SecTree.ListNoSec | src/sec.rs:291-295 | a list strips element by element: same length, each element its stripped form at the same position |
| SecTree.ToNor | src/sec.rs:232-242 | after `to_nor` every leaf at any depth is normal; the stripped tree and well-formedness are unchanged |
| SecTree.ObjToNor | src/sec.rs:268-270 | an object's `to_nor` keeps its keys; each value becomes entirely normal with the same stripped form |
| SecTree.ListToNor | src/sec.rs:258-260 | a list's `to_nor` keeps its length; each element becomes entirely normal with the same stripped form |
| SecTree.ToSec | src/sec.rs:244-254 | after `to_sec` every leaf at any depth is secret; the stripped tree and well-formedness are unchanged |
| SecTree.ObjToSec | src/sec.rs:272-274 | an object's `to_sec` keeps its keys; each value becomes entirely secret with the same stripped form |
| SecTree.ListToSec | src/sec.rs:262-264 | a list's `to_sec` keeps its length; each element becomes entirely secret with the same stripped form |
| SecTree.FromPlain | src/sec.rs:116-140 | building from a plain tree flags every leaf the same way and yields distinct keys at every level |
| SecTree.EntriesFromPlain | src/sec.rs:88-105 | one entry per plain entry, in order: the key normalised, the value built from the plain value with the requested flag |
| SecTree.ListFromPlain | src/sec.rs:107-115 | one element per plain element, in order, each built from the plain element with the requested flag |
| SecTree.SecFrom | src/sec.rs:129-139 | `sec_from` makes every leaf secret and is undone by `no_sec` on trees with normal, distinct keys |
| SecTree.NorFrom | src/sec.rs:117-127 | `nor_from` makes every leaf normal and is undone by `no_sec` on trees with normal, distinct keys |
| SecTree.StripAndFlagDetermineTree | src/sec.rs:230-289 | two trees with the same stripped form whose leaves all carry the same flag are equal |
| SecTree.ToSecOfSecretTree | src/sec.rs:244-254 | `to_sec` leaves an all-secret tree unchanged |
| SecTree.ToNorOfNormalTree | src/sec.rs:232-242 | `to_nor` leaves an all-normal tree unchanged |
| SecTree.FlipsIdempotent | src/sec.rs:230-255 | applying `to_sec` (or `to_nor`) twice to a tree equals applying it once |
| SecTree.FlipsInverse | src/sec.rs:230-255 | `to_nor` after `to_sec` restores an all-normal tree; `to_sec` after `to_nor` restores an all-secret one |
| SecTree.NoSecFromPlain | src/sec.rs:116-140 | building and then stripping gives back a plain tree whose keys are normal and distinct, order included |
| SecTree.NoSecFromPlainEntries | src/sec.rs:88-105 | the same round trip for an object's entries, through collection into a map |
| SecTree.NoSecFromPlainList | src/sec.rs:107-115 | the same round trip for a list's elements |
| SecTree.FromPlainOfNoSec | src/sec.rs:116-140 | rebuilding a well-formed tree from its stripped form gives the tree with every flag set as requested |
| SecTree.CollectIsPointwise | src/sec.rs:267-275 | collecting the converted entries of a well-formed object into a map gives the entry-by-entry conversion, for `to_sec`, `to_nor` and `no_sec` |
| SecTree.PartialCmp | src/sec.rs:203-214 | only leaves of the same kind compare; strings compare lexicographically (`CmpString`), bools with `false` first (`CmpBool`) and numbers numerically (`CmpInt`), always with a result that is `Equal` exactly when the payloads are equal; floats and addresses use their own order |
| SecTree.PartialCmpIgnoresSecrecy | src/sec.rs:31-38 | flipping the flags of either operand changes no comparison |
| SecTree.PartialCmpAntisymmetric | src/sec.rs:203-214 | swapping operands reverses the result, provided the float and address orders do so too |
| SecTree.Display | src/sec.rs:179-191 | a secret leaf shows `***`; a normal string shows itself; a bool shows `true`/`false`; a number shows its shortest decimal text, which reads back as the number; containers show `obj:` or `list:` and their debug text |
| SecTree.SecretLeavesDisplayAlike | src/sec.rs:179-186 | any two secret leaves display identically |
| SecTree.ToSecMasksLeaf | src/sec.rs:244-250 | after `to_sec` every scalar displays as `***` |
| Order.ReverseOpt | src/sec.rs:203-214 | reversing a partial comparison keeps `None` and reverses a result |
| Order.CmpInt | src/sec.rs:208 | `u64` comparison: `Less`, `Equal` or `Greater` exactly as the numeric order says |
| Order.CmpBool | src/sec.rs:207 | `bool` comparison: equal values are `Equal` and `false` comes before `true` |
| Order.CmpString | src/sec.rs:206 | string comparison is `Equal` exactly for equal strings |
| Order.CmpStringAntisymmetric | src/sec.rs:206 | swapping two strings reverses their comparison |
| Order.CmpStringPrefix | src/sec.rs:206 | a proper prefix comes before the string it begins |
| Order.CmpStringFirstDifference | src/sec.rs:206 | at the first position where two strings differ, the one with the smaller character comes first |
| Decimal.DigitPart | src/sec.rs:348 | the text of a number after its optional leading `+` |
| Decimal.ParseUsize | src/sec.rs:348 | `usize` parsing: results lie below 2^64, start with a digit or `+`, and the empty text or a lone `+` fails |
| Decimal.ParseUsizeAccepts | src/sec.rs:348 | parsing succeeds exactly when the text after an optional `+` is a non-empty run of digits whose value is below 2^64, and then yields that value |
| Decimal.NatToString | src/sec.rs:184 | `u64` display: a non-empty string of digits without a leading zero |
| Decimal.DigitsValueOfNatToString | src/sec.rs:184 | the digits of a number's display have that number's value |
| Decimal.ParseNatToString | src/sec.rs:348 | every index below 2^64 parses back from its decimal text |
| Types.UpperChar | src/types.rs:4 | upper-casing maps each of `a`..`z` to the same letter in `A`..`Z` and leaves every other character as it is |
| Types.Upper | src/types.rs:4 | key normalisation keeps the length and upper-cases each character |
| Types.UpperOfNormal | src/types.rs:4 | normalising a key that is already normal changes nothing |
| Types.UpperIdempotent | src/types.rs:4 | normalisation is idempotent |
| Types.UpperIgnoresCase | src/types.rs:4-5 | two keys are the same `UpperKey` exactly when they differ only in ASCII letter case |
| IndexMap.IndexOf | src/types.rs:5 | finds the first position holding a key, or reports it absent |
| IndexMap.Get | src/sec.rs:322 | a lookup misses exactly when the key is absent, and with distinct keys returns that key's value |
| IndexMap.Insert | src/sec.rs:94 | insertion keeps the position of a present key and appends a new one; the key then maps to the new value; distinct keys stay distinct |
| IndexMap.InsertGetOther | src/sec.rs:94 | insertion leaves the lookup of every other key unchanged |
| IndexMap.FromPairs | src/sec.rs:91-94 | collecting yields distinct keys and no entry that was not in the input |
| IndexMap.FromPairsGet | src/sec.rs:91-94 | after collecting, each key holds the value of its last occurrence in the input |
| IndexMap.FromPairsDistinct | src/sec.rs:91-94 | collecting pairs whose keys are already distinct rebuilds them unchanged, in order |
| IndexMap.ExtendSnoc | src/sec.rs:91-94 | collecting one more pair is inserting it into what was collected before |
| IndexMap.FromPairsSnoc | src/sec.rs:91-94 | the map collected from `ps` + `[p]` is the map collected from `ps` with `p` inserted |
| IndexMap.FromPairsLast | src/sec.rs:91-94 | the same, read from the last pair of a non-empty sequence |
| IndexMap.InsertKeys | src/sec.rs:94 | after an insertion the keys are unchanged for a present key and have the new key last otherwise |
| IndexMap.FromPairsKeys | src/sec.rs:91-94 | the keys of a collected map are the input's keys in order of first occurrence, so a repeated key stays at its first position |
| SecPath.Find | src/sec.rs:342 | `find` returns the first position of the character, or `None` when it does not occur |
| SecPath.Split | src/sec.rs:310 | a split always has at least one piece |
| SecPath.SplitPieces | src/sec.rs:310 | no piece of a split holds the separator |
| SecPath.JoinSplit | src/sec.rs:310 | joining the pieces with the separator gives the text back |
| SecPath.SplitJoin | src/sec.rs:310 | splitting a join of separator-free pieces gives the pieces back |
| SecPath.SplitConcat | src/sec.rs:310 | splitting `p` + separator + `q` gives the pieces of `p` followed by the pieces of `q` |
| SecPath.ParseIndex | src/sec.rs:341-350 | a parsed segment is its key, `[`, the index's text and `]`, with a bracket-free key and an index below 2^64; a segment without `[` or without a final `]` fails |
| SecPath.ParseIndexOfIndexed | src/sec.rs:341-350 | every `key[n]` with a bracket-free key parses to that key and index |
| SecPath.ParseIndexOfPlain | src/sec.rs:342 | a segment without `[` is never an indexed segment |
| SecPath.ParseIndexAt | src/sec.rs:341-350 | with a `[` and a final `]`, the result depends only on whether the text between them parses |
| SecPath.ParseIndexNone | src/sec.rs:342-345 | without a `[`, or without a final `]`, parsing fails |
| SecPath.AsObj | src/sec.rs:352-357 | yields the map exactly for an object |
| SecPath.ValueGet | src/sec.rs:308-339 | the cursor loop returns exactly the value the path selects, `PathValue` |
| SecPath.SegmentStep | src/sec.rs:318-333 | one turn of the loop finds what the segment selects in the current object, or stops with `None` |
| SecPath.CursorStep | src/sec.rs:317-334 | the rest of the path resolves from the current object by its next segment |
| SecPath.ResolveAppend | src/sec.rs:317-338 | resolving two segment lists in a row is resolving the second in the object the first reaches, and fails if that is no object |
| SecPath.PathConcat | src/sec.rs:317-338 | `p.q` selects what `q` selects in the object `p` selects, and nothing if `p` selects a non-object |
| SecPath.SingleSegment | src/sec.rs:317-338 | a one-segment path selects what that segment selects in the root |
| SecPath.PathOfKey | src/sec.rs:330-334 | a dot-free segment that is not `key[n]` is a case-insensitive key lookup |
| SecPath.PathOfIndexed | src/sec.rs:318-329 | `key[n]` selects element `n` of the list under `key`, and nothing if the key is missing, holds no list, or `n` is out of range |
| SecPath.FindUpper | src/sec.rs:322 | upper-casing a text does not move `.` or `[` |
| SecPath.SplitUpper | src/sec.rs:310 | upper-casing a path upper-cases each of its segments |
| SecPath.ParseUsizeUpper | src/sec.rs:348 | upper-casing a text does not change how it parses as an index |
| SecPath.ParseIndexUpper | src/sec.rs:341-350 | upper-casing a segment upper-cases its key and keeps its index |
| SecPath.LookupSegmentUpper | src/sec.rs:318-333 | a segment selects the same value whatever its letter case |
| SecPath.ResolveUpper | src/sec.rs:317-338 | a list of segments and the list of their upper-cased forms resolve to the same value |
| SecPath.PathUpper | src/sec.rs:308-339 | a path and its upper-cased form select the same value |
| SecPath.PathIgnoresCase | src/sec.rs:308-339 | two paths that differ only in ASCII letter case select the same value |
| Reasons.Prefix | src/error.rs:14-24 | the words are `sensitive msg `, `no permission `, `deception ` and `un authenticated `, one per variant, each ending in a space |
| Reasons.SecReasonText | src/error.rs:14-24 | a reason displays as its variant's words followed by the message, unchanged |
| Reasons.OrionText | src/error.rs:6-12 | a wrapped reason displays as the reason it holds |
| Reasons.SecCode | src/error.rs:32-37 | the codes are 101, 201, 301 and 401 for `SensitiveMsg`, `NoPermission`, `Deception` and `UnAuthenticated` |
| Reasons.ErrorCode | src/error.rs:29-41 | a security reason has the code of its `SecReason`; a general reason keeps its own |
| Reasons.PrefixIsKind | src/error.rs:14-24 | two reasons have the same words exactly when they are of the same variant |
| Reasons.SecCodeIsKind | src/error.rs:32-37 | two reasons have the same code exactly when they are of the same variant |
| Reasons.SecReasonTextInjective | src/error.rs:14-24 | two reasons display alike exactly when they are equal |
| Reasons.OrionTextInjectiveOnSec | src/error.rs:6-12 | two wrapped security reasons display alike exactly when they are equal |
| Reasons.SensitiveMsgText | src/error.rs:81-85 | `SensitiveMsg("test message")` displays as `sensitive msg test message` |
| Reasons.ReasonEquality | src/error.rs:120-128 | reasons with equal messages are equal; with different messages they differ |
| Reasons.SensitiveMsgError | src/error.rs:146-156 | a sensitive-message error shows its message after the words `sensitive msg ` and has code 101 |

## Left out

- File and environment loading (`src/load.rs`) and the crate root (`src/lib.rs`) are not part of this model. Serialisation (`serde`) is not modelled either.
- `UpperKey` comes from another crate, which is not part of this model. Its upper-casing is modelled as ASCII upper-casing. A Unicode upper-casing that changes a string's length is not captured.
- `f64` and `IpAddr` are opaque types. Their text form and their order are parameters. NaN is not modelled: the model's equality is structural, whereas `f64`'s `PartialEq` makes NaN unequal to itself.
- SecTree.Display: objects and lists show `obj:`/`list:` followed by their `{:#?}` debug rendering. That rendering comes from derived `Debug` and is a parameter here (`Formats`). The model therefore does not say what that text reveals of secret leaves inside containers. Derived `Debug` of `SecValue` prints the payload.
- The general reason `UvsReason` and the `StructError` wrapper belong to the error-handling crate, which is not part of this model. The display and error code of `UvsReason` are parameters.
- The conversion of `OrionSecReason` into another reason type (src/error.rs:56-63) and the `SecretCheck` helper (src/sec.rs:550-569) are test-only code and are left out.
- The `parts.is_empty()` guard in `value_get` (src/sec.rs:311-313) is dead: splitting never gives an empty list (`SecPath.Split`). The model has no branch for it.
- Key casing follows the code: stored keys are upper-cased, and `no_sec` returns them upper-cased (the crate's own test at src/sec.rs:526-532 reads back `"NESTED"`). A key does not keep its original casing.
- SecTree.ObjToSec / SecTree.ObjToNor / SecTree.ObjNoSec: the source maps each entry and collects into a new map. The model converts entry by entry. `SecTree.CollectIsPointwise` proves the two agree on well-formed objects.
- `to_sec`/`to_nor` take `self` by value: the model returns a new value instead of consuming one. Vectors and maps of `SecValue<T>` are flipped by loops that update their own copy.
- Decimal.ParseUsize: `usize` is taken to be 64 bits wide, so indices up to 2^64 - 1 parse. On a 32-bit target the source's `parse::<usize>()` already fails from 2^32 on.

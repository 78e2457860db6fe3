/** The host-side values the addon sees: JavaScript values handed in by the
    caller, the errors it throws or passes to callbacks, and the C strings it
    makes from them with getstr/strdup. */
module Js {

  /** The NUL byte that separates body segments and terminates C strings. */
  const NUL: char := '\0'

  /** libzephyr's success code. */
  const ZERR_NONE: int := 0

  datatype Option<T> = None | Some(value: T)

  /** A JavaScript value, as far as the addon tells values apart.
      `Other(text)` stands for every value the addon never inspects
      (numbers, booleans, functions, plain objects) and records the string
      its ToString conversion yields. */
  datatype JsValue =
    | Undefined
    | Null
    | Str(s: string)
    | Arr(elems: seq<JsValue>)
    | Other(text: string)

  /** A JavaScript object: every property a lookup would find, own or inherited. */
  type JsObject = map<string, JsValue>

  /** The error values the addon throws or hands to a callback.
      `ComErr(code)` is ComErrException: an Error whose `code` property
      carries the libzephyr code (its text comes from error_message). */
  datatype JsError =
    | Error(message: string)
    | TypeError(message: string)
    | ComErr(code: int)

  /** How a call into the addon ends: it throws, or it returns a value. */
  datatype Completion<T> = Threw(error: JsError) | Returned(value: T)

  /** Property lookup: a missing key reads as undefined. */
  function Get(obj: JsObject, key: string): (v: JsValue)
    ensures key !in obj ==> v == Undefined
    ensures key in obj ==> v == obj[key]
  {
    if key in obj then obj[key] else Undefined
  }

  /** ToString of a value, as String::Utf8Value and ToString() see it. */
  function ToStr(v: JsValue): (r: string)
    ensures v.Str? ==> r == v.s
    ensures v.Undefined? ==> r == "undefined"
    ensures v.Null? ==> r == "null"
    ensures v.Arr? && v.elems == [] ==> r == ""
    ensures v.Arr? && |v.elems| == 1 && v.elems[0].Str? ==> r == v.elems[0].s
    decreases v, 1
  {
    match v
    case Undefined => "undefined"
    case Null => "null"
    case Str(s) => s
    case Arr(elems) => JoinElements(v, 0)
    case Other(text) => text
  }

  /** Array.prototype.join with ',' over the elements of `arr` from index `i`
      on: null and undefined elements contribute the empty string. */
  function JoinElements(arr: JsValue, i: nat): (r: string)
    requires arr.Arr? && i <= |arr.elems|
    ensures i == |arr.elems| ==> r == ""
    ensures i < |arr.elems| ==> |r| >= |arr.elems| - i - 1
    ensures (forall k :: i <= k < |arr.elems| ==> arr.elems[k].Str? && ',' !in arr.elems[k].s) ==>
              multiset(r)[','] == if i == |arr.elems| then 0 else |arr.elems| - i - 1
    decreases arr, 0, |arr.elems| - i
  {
    if i == |arr.elems| then ""
    else
      var e := arr.elems[i];
      var first := if e.Undefined? || e.Null? then "" else ToStr(e);
      if i + 1 == |arr.elems| then first else first + "," + JoinElements(arr, i + 1)
  }

  /** Position of the first NUL in `s`, or |s| when there is none (memchr / strlen). */
  function IndexOfNul(s: seq<char>): (i: nat)
    ensures i <= |s|
    ensures forall j :: 0 <= j < i ==> s[j] != NUL
    ensures i < |s| ==> s[i] == NUL
  {
    NulFrom(s, 0)
  }

  /** Position of the first NUL in `s` at or after k, or |s|. */
  function NulFrom(s: seq<char>, k: nat): (i: nat)
    requires k <= |s|
    ensures k <= i <= |s|
    ensures forall j :: k <= j < i ==> s[j] != NUL
    ensures i < |s| ==> s[i] == NUL
    decreases |s| - k
  {
    if k == |s| then k else if s[k] == NUL then k else NulFrom(s, k + 1)
  }

  /** The C string a byte string becomes once copied with strdup/strndup or
      read through a `char*`: everything before the first NUL. */
  function CString(s: string): (c: string)
    ensures c <= s
    ensures NUL !in c
    ensures |c| < |s| ==> s[|c|] == NUL
  {
    s[..IndexOfNul(s)]
  }

  lemma CStringOfNulFree(s: string)
    requires NUL !in s
    ensures CString(s) == s
  {
  }
}

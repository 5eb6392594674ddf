/** The JavaScript values the blocks receive and store, with the few
    language operations the blocks apply to them. */
module JsValue {
  import opened Calendar
  import opened JsString
  import opened DateFormat

  /** A `Date` object: either it holds a time value or it is an Invalid Date. */
  datatype MaybeDate = InvalidDate | ValidDate(date: Date)

  /** A JavaScript value. Containers list their contents in iteration order. */
  datatype Value =
    | Undefined
    | Null
    | Bool(b: bool)
    | Num(n: int)
    | Str(s: string)
    | Arr(elems: seq<Value>)        // an Array
    | SetObj(elems: seq<Value>)     // a Set, in insertion order
    | Iterable(elems: seq<Value>)   // any other object with a Symbol.iterator method, by what it yields
    | Obj(props: seq<Prop>)         // a plain object: its own enumerable properties in key order
    | DateObj(time: MaybeDate)      // a Date object

  /** An own enumerable property of a plain object. */
  datatype Prop = Prop(key: string, val: Value)

  /** The object `{ called: true }` that `RunNextBlock` stores. */
  const Called: Value := Obj([Prop("called", Bool(true))])

  /** Property access `m[key]` on a record: a missing key reads as `undefined`. */
  function Get(m: map<string, Value>, key: string): (v: Value)
    ensures key in m ==> v == m[key]
    ensures key !in m ==> v == Undefined
  {
    if key in m then m[key] else Undefined
  }

  /** `typeof v === "object"` (which includes `null`). */
  predicate IsObjectType(v: Value) {
    v.Null? || v.Arr? || v.SetObj? || v.Iterable? || v.Obj? || v.DateObj?
  }

  /** `typeof v[Symbol.iterator] === "function"` for a value that has properties. */
  predicate HasIterator(v: Value) {
    v.Str? || v.Arr? || v.SetObj? || v.Iterable?
  }

  /** The values a `for..of` over an iterable yields; a string yields its
      code points as one-character strings. */
  function Iterate(v: Value): (r: seq<Value>)
    requires HasIterator(v)
    ensures v.Str? ==> |r| == |v.s| && forall i :: 0 <= i < |r| ==> r[i] == Str([v.s[i]])
    ensures !v.Str? ==> r == v.elems
  {
    match v
    case Str(s) => seq(|s|, i requires 0 <= i < |s| => Str([s[i]]))
    case Arr(xs) => xs
    case SetObj(xs) => xs
    case Iterable(xs) => xs
  }

  /** `Object.keys(v)` of a non-iterable object; a `Date` has no own keys. */
  function ObjectKeys(v: Value): (r: seq<Value>)
    requires v.Obj? || v.DateObj?
    ensures v.Obj? ==> |r| == |v.props| && forall i :: 0 <= i < |r| ==> r[i] == Str(v.props[i].key)
    ensures v.DateObj? ==> r == []
  {
    if v.Obj? then seq(|v.props|, i requires 0 <= i < |v.props| => Str(v.props[i].key)) else []
  }

  /** `Object.values(v)` of a non-iterable object. */
  function ObjectValues(v: Value): (r: seq<Value>)
    requires v.Obj? || v.DateObj?
    ensures v.Obj? ==> |r| == |v.props| && forall i :: 0 <= i < |r| ==> r[i] == v.props[i].val
    ensures v.DateObj? ==> r == []
  {
    if v.Obj? then seq(|v.props|, i requires 0 <= i < |v.props| => v.props[i].val) else []
  }

  /** `String(v)`, which a template literal `${v}` applies: an array joins
      its elements with commas (`null` and `undefined` elements give the
      empty string), a Date gives its `toString` text, other objects give
      their class tag. */
  function ToString(v: Value): (r: string)
    ensures v.Str? ==> r == v.s
    ensures v.Num? ==> r == NumberToString(v.n)
    ensures v.Undefined? ==> r == "undefined"
    ensures v.Bool? ==> r == (if v.b then "true" else "false")
  {
    match v
    case Undefined => "undefined"
    case Null => "null"
    case Bool(b) => if b then "true" else "false"
    case Num(n) => NumberToString(n)
    case Str(s) => s
    case Arr(xs) => JoinElements(xs)
    case SetObj(_) => "[object Set]"
    case Iterable(_) => "[object Object]"
    case Obj(_) => "[object Object]"
    case DateObj(t) => if t.InvalidDate? then "Invalid Date" else DateToString(t.date)
  }

  /** `xs.join(",")` as `Array.prototype.toString` applies it. */
  function JoinElements(xs: seq<Value>): string
    decreases xs
  {
    if xs == [] then ""
    else
      var head := if xs[0].Undefined? || xs[0].Null? then "" else ToString(xs[0]);
      if |xs| == 1 then head else head + "," + JoinElements(xs[1..])
  }
}

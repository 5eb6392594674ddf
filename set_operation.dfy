/** The "Set Operation" block (blocks/set-operation.ts): two inputs are
    checked, turned into sets, combined by union, intersection, difference
    or symmetric difference, optionally sorted, and stored as a `Set` or an
    array. Every invalid option value is an error of its own; an error ends
    the run before anything is stored. */
module SetOperation {
  import opened Results
  import opened Calendar
  import opened DateFormat
  import opened JsValue
  import opened JsString
  import opened JsSet
  import opened Sorting
  import opened Host

  /** The block's SELECT options, each with its keys in listing order. */
  const Options: seq<BlockOption> := [
    BlockOption("operation", SelectOption(["union", "intersect", "diff", "symdiff"])),
    BlockOption("objectProcessMethod", SelectOption(["keys", "values"])),
    BlockOption("sort", SelectOption(["no", "alpha", "alpharev"])),
    BlockOption("outputType", SelectOption(["set", "array"]))
  ]

  /** The errors the block (and its legacy variant) can throw. */
  datatype Error =
    | NotACollection(name: string)               // validateInput
    | InputRejected                              // the legacy processInput's own check
    | NoIteratorOnNullish(input: Value)          // TypeError: reading `[Symbol.iterator]` of undefined/null
    | InvalidObjectProcessMethod(processMethod: Value)
    | UnknownInput(input: Value)
    | InvalidSetOperation(operation: Value)
    | NotASet                                    // TypeError: a set method on or with `undefined`
    | InvalidSortMethod(sortMethod: Value)
    | NoLocaleCompare(receiver: string)          // TypeError: `localeCompare` called on a non-string
    | InvalidOutputType(outputType: Value)

  /** The message of the thrown `Error`. */
  function Message(e: Error): string {
    match e
    case NotACollection(name) => "ERROR: '" + name + "' can't be string/undefined/null"
    case InputRejected => "input can't be string/undefined/null"
    case NoIteratorOnNullish(v) => "Cannot read properties of " + ToString(v)
    case InvalidObjectProcessMethod(m) => "invalid object process method: " + ToString(m)
    case UnknownInput(v) => "unknown input: " + ToString(v)
    case InvalidSetOperation(op) => "invalid set operation: " + ToString(op)
    case NotASet => "Cannot read properties of undefined"
    case InvalidSortMethod(m) => "invalid sort method: " + ToString(m)
    case NoLocaleCompare(receiver) => receiver + ".localeCompare is not a function"
    case InvalidOutputType(t) => "invalid output type: " + ToString(t)
  }

  // ---------------------------------------------------------------------
  // The pipeline steps.
  // ---------------------------------------------------------------------

  /** A value the block refuses as an input. */
  predicate Refused(input: Value) {
    input.Str? || input.Undefined? || input.Null?
  }

  /** `validateInput`: strings, `undefined` and `null` are refused with an
      error that names the input. */
  function ValidateInput(input: Value, name: string): (r: Result<(), Error>)
    ensures r.Err? <==> Refused(input)
    ensures r.Err? ==> r.error == NotACollection(name) && Message(r.error) == "ERROR: '" + name + "' can't be string/undefined/null"
  {
    if input.Str? || input.Undefined? || input.Null? then Err(NotACollection(name)) else Ok(())
  }

  /** `processInput`: an iterable becomes the set of what it yields, a
      non-iterable object the set of its keys or of its values, and
      anything else is an error. */
  function ProcessInput(input: Value, processMethod: Value): (r: Result<seq<Value>, Error>)
    ensures r.Ok? ==> Distinct(r.value)
    ensures HasIterator(input) ==> r.Ok? && forall x :: x in r.value <==> x in Iterate(input)
    ensures (input.Obj? || input.DateObj?) && processMethod == Str("keys")
            ==> r.Ok? && forall x :: x in r.value <==> x in ObjectKeys(input)
    ensures (input.Obj? || input.DateObj?) && processMethod == Str("values")
            ==> r.Ok? && forall x :: x in r.value <==> x in ObjectValues(input)
    ensures (input.Obj? || input.DateObj?) && processMethod != Str("keys") && processMethod != Str("values")
            ==> r == Err(InvalidObjectProcessMethod(processMethod))
    ensures (input.Bool? || input.Num?) ==> r == Err(UnknownInput(input))
    ensures (input.Undefined? || input.Null?) ==> r.Err?
  {
    if input.Undefined? || input.Null? then Err(NoIteratorOnNullish(input))
    else if HasIterator(input) then Ok(Dedup(Iterate(input)))
    else if IsObjectType(input) then
      if processMethod == Str("keys") then Ok(Dedup(ObjectKeys(input)))
      else if processMethod == Str("values") then Ok(Dedup(ObjectValues(input)))
      else Err(InvalidObjectProcessMethod(processMethod))
    else Err(UnknownInput(input))
  }

  /** `executeSetOperation`: the `Set` method the operation names. */
  function ExecuteSetOperation(a: seq<Value>, b: seq<Value>, operation: Value): (r: Result<seq<Value>, Error>)
    requires Distinct(a) && Distinct(b)
    ensures r.Ok? ==> Distinct(r.value)
    ensures operation == Str("union")
            ==> r.Ok? && (forall x :: x in r.value <==> x in a || x in b) && |a| <= |r.value| && r.value[..|a|] == a
    ensures operation == Str("intersect") ==> r.Ok? && forall x :: x in r.value <==> x in a && x in b
    ensures operation == Str("diff") ==> r.Ok? && forall x :: x in r.value <==> x in a && x !in b
    ensures operation == Str("symdiff") ==> r.Ok? && forall x :: x in r.value <==> (x in a) != (x in b)
    ensures r.Err? <==> operation !in [Str("union"), Str("intersect"), Str("diff"), Str("symdiff")]
    ensures r.Err? ==> r.error == InvalidSetOperation(operation)
  {
    if operation == Str("union") then Ok(Union(a, b))
    else if operation == Str("intersect") then Ok(Intersection(a, b))
    else if operation == Str("diff") then Ok(Difference(a, b))
    else if operation == Str("symdiff") then Ok(SymmetricDifference(a, b))
    else Err(InvalidSetOperation(operation))
  }

  // ---------------------------------------------------------------------
  // Ordering.
  // ---------------------------------------------------------------------

  /** `s` with `"` and `\` escaped, between double quotes. */
  function Quote(s: string): string {
    "\"" + Escape(s) + "\""
  }

  function Escape(s: string): string {
    if s == [] then ""
    else (if s[0] == '"' || s[0] == '\\' then ['\\', s[0]] else [s[0]]) + Escape(s[1..])
  }

  /** `JSON.stringify(v)` of an element: `undefined` inside an array gives
      `null`, an object skips properties whose value is `undefined`, `Set`s
      and other iterables give `{}`, and a Date gives its `toISOString` text
      through `toJSON` (an Invalid Date gives `null`). */
  function Stringify(v: Value): string {
    match v
    case Undefined => "null"
    case Null => "null"
    case Bool(b) => if b then "true" else "false"
    case Num(n) => NumberToString(n)
    case Str(s) => Quote(s)
    case Arr(xs) => "[" + StringifyElements(xs) + "]"
    case SetObj(_) => "{}"
    case Iterable(_) => "{}"
    case Obj(props) => "{" + StringifyProperties(props) + "}"
    case DateObj(t) => if t.InvalidDate? then "null" else Quote(ToIsoString(t.date))
  }

  function StringifyElements(xs: seq<Value>): string
    decreases xs
  {
    if xs == [] then ""
    else if |xs| == 1 then Stringify(xs[0])
    else Stringify(xs[0]) + "," + StringifyElements(xs[1..])
  }

  function StringifyProperties(ps: seq<Prop>): string
    decreases ps
  {
    if ps == [] then ""
    else
      var rest := StringifyProperties(ps[1..]);
      if ps[0].val.Undefined? then rest
      else
        var item := Quote(ps[0].key) + ":" + Stringify(ps[0].val);
        if rest == "" then item else item + "," + rest
  }

  /** `compare`: strings by `localeCompare`, numbers by difference, and
      anything else by the `localeCompare` of the two JSON texts. */
  function Compare(a: Value, b: Value): int {
    if a.Str? && b.Str? then LocaleCompare(a.s, b.s)
    else if a.Num? && b.Num? then a.n - b.n
    else LocaleCompare(Stringify(a), Stringify(b))
  }

  /** The comparator `(a, b) => compare(b, a)` of the reverse sort. */
  function CompareReversed(a: Value, b: Value): int {
    Compare(b, a)
  }

  /** Swapping the operands flips the sign of `compare`. */
  lemma CompareFlips(a: Value, b: Value)
    ensures Compare(b, a) == -Compare(a, b)
  {
    if a.Str? && b.Str? {
      LocaleCompareFlip(a.s, b.s);
    } else if !(a.Num? && b.Num?) {
      LocaleCompareFlip(Stringify(a), Stringify(b));
    }
  }

  lemma CompareSignFlips(s: seq<Value>)
    ensures SignFlips(s, Compare) && SignFlips(s, CompareReversed)
  {
    forall a, b | a in s && b in s ensures Compare(b, a) == -Compare(a, b) {
      CompareFlips(a, b);
    }
  }

  /** All elements are strings. */
  predicate AllStrings(s: seq<Value>) {
    forall x :: x in s ==> x.Str?
  }

  /** All elements are numbers. */
  predicate AllNumbers(s: seq<Value>) {
    forall x :: x in s ==> x.Num?
  }

  /** On strings only, or on numbers only, `compare` is a total order. */
  lemma CompareTotalOrder(s: seq<Value>)
    requires AllStrings(s) || AllNumbers(s)
    ensures Transitive(s, Compare) && ZeroOnlyOnEqual(s, Compare)
    ensures Transitive(s, CompareReversed) && ZeroOnlyOnEqual(s, CompareReversed)
  {
    forall a, b, c | a in s && b in s && c in s && Compare(a, b) <= 0 && Compare(b, c) <= 0
      ensures Compare(a, c) <= 0
    {
      if AllStrings(s) {
        LocaleCompareTransitive(a.s, b.s, c.s);
      }
    }
    forall a, b | a in s && b in s && Compare(a, b) == 0 ensures a == b {
      if AllStrings(s) {
        LocaleCompareZero(a.s, b.s);
      }
    }
    forall a, b | a in s && b in s && CompareReversed(a, b) == 0 ensures a == b {
      if AllStrings(s) {
        LocaleCompareZero(b.s, a.s);
      }
    }
  }

  /** `executeSort`: "no" keeps the set; "alpha" and "alpharev" give an
      array of the same elements in ascending or descending `compare`
      order, with `undefined` elements last. */
  function ExecuteSort(s: seq<Value>, sortMethod: Value): (r: Result<Value, Error>)
    ensures r.Ok? ==> r.value.SetObj? || r.value.Arr?
    ensures r.Ok? ==> multiset(r.value.elems) == multiset(s) && |r.value.elems| == |s|
    ensures sortMethod == Str("no") ==> r == Ok(SetObj(s))
    ensures sortMethod == Str("alpha")
            ==> r.Ok? && r.value.Arr? && Sorted(r.value.elems[..|Defined(s)|], Compare)
    ensures sortMethod == Str("alpharev")
            ==> r.Ok? && r.value.Arr? && Sorted(r.value.elems[..|Defined(s)|], CompareReversed)
    ensures sortMethod in [Str("alpha"), Str("alpharev")] ==> forall i :: |Defined(s)| <= i < |r.value.elems| ==> r.value.elems[i] == Undefined
    ensures r.Err? <==> sortMethod !in [Str("no"), Str("alpha"), Str("alpharev")]
    ensures r.Err? ==> r.error == InvalidSortMethod(sortMethod)
  {
    CompareSignFlips(Defined(s));
    if sortMethod == Str("no") then Ok(SetObj(s))
    else if sortMethod == Str("alpha") then
      SortBySorted(Defined(s), Compare);
      Ok(Arr(ArraySort(s, Compare)))
    else if sortMethod == Str("alpharev") then
      SortBySorted(Defined(s), CompareReversed);
      Ok(Arr(ArraySort(s, CompareReversed)))
    else Err(InvalidSortMethod(sortMethod))
  }

  /** For strings only or numbers only, the "alpha" and "alpharev" results
      are the one arrangement of the elements that is ordered pairwise: any
      correct sort would give the same array. */
  lemma {:induction false} SortIsTheOrderedPermutation(s: seq<Value>, t: seq<Value>, sortMethod: Value)
    requires AllStrings(s) || AllNumbers(s)
    requires sortMethod == Str("alpha") || sortMethod == Str("alpharev")
    requires multiset(t) == multiset(s)
    requires SortedPairwise(t, if sortMethod == Str("alpha") then Compare else CompareReversed)
    ensures ExecuteSort(s, sortMethod) == Ok(Arr(t))
  {
    assert Undefined !in s;
    CompareSignFlips(s);
    CompareTotalOrder(s);
    if sortMethod == Str("alpha") {
      ArraySortDefined(s, Compare);
      SortByIsTheOrderedPermutation(s, t, Compare);
    } else {
      ArraySortDefined(s, CompareReversed);
      SortByIsTheOrderedPermutation(s, t, CompareReversed);
    }
  }

  /** `convertOutput`: "set" passes its input on (a sorted array stays an
      array), "array" copies the elements into an array. */
  function ConvertOutput(v: Value, outputType: Value): (r: Result<Value, Error>)
    requires v.SetObj? || v.Arr?
    ensures outputType == Str("set") ==> r == Ok(v)
    ensures outputType == Str("array") ==> r.Ok? && r.value.Arr? && r.value.elems == v.elems
    ensures r.Err? <==> outputType != Str("set") && outputType != Str("array")
    ensures r.Err? ==> r.error == InvalidOutputType(outputType)
  {
    if outputType == Str("set") then Ok(v)
    else if outputType == Str("array") then Ok(Arr(v.elems))
    else Err(InvalidOutputType(outputType))
  }

  // ---------------------------------------------------------------------
  // The block.
  // ---------------------------------------------------------------------

  /** What one run computes from the cache: the value stored under
      "result", or the error that ends the run. */
  function Evaluate(inputs: map<string, Value>, options: map<string, Value>): Result<Value, Error> {
    Pipeline(Get(inputs, "in1"), Get(inputs, "in2"), options)
  }

  /** The steps of `code()` between reading the inputs and storing the
      result, in the order it takes them; the first that throws ends it. */
  function Pipeline(in1: Value, in2: Value, options: map<string, Value>): Result<Value, Error> {
    var valid1 :- ValidateInput(in1, "Input 1");
    var valid2 :- ValidateInput(in2, "Input 2");
    var processed1 :- ProcessInput(in1, Get(options, "objectProcessMethod"));
    var processed2 :- ProcessInput(in2, Get(options, "objectProcessMethod"));
    var operated :- ExecuteSetOperation(processed1, processed2, Get(options, "operation"));
    var sorted :- ExecuteSort(operated, Get(options, "sort"));
    ConvertOutput(sorted, Get(options, "outputType"))
  }

  /** Input 1 is checked before input 2, and both before any option is looked at. */
  lemma ValidationComesFirst(inputs: map<string, Value>, options: map<string, Value>)
    ensures Refused(Get(inputs, "in1")) ==> Evaluate(inputs, options) == Err(NotACollection("Input 1"))
    ensures !Refused(Get(inputs, "in1")) && Refused(Get(inputs, "in2"))
            ==> Evaluate(inputs, options) == Err(NotACollection("Input 2"))
  {
  }

  /** `code()`: runs the pipeline on the cache; on success stores the
      result and fires "action", on error changes nothing. */
  method Code(dbb: DBBMock, cache: Cache) returns (outcome: Result<Value, Error>)
    modifies cache`outputs
    ensures outcome == Evaluate(old(cache.inputs), old(cache.options))
    ensures outcome.Ok? ==> cache.outputs == old(cache.outputs)["result" := outcome.value]["action" := Called]
    ensures outcome.Err? ==> cache.outputs == old(cache.outputs)
  {
    var in1 := dbb.GetInputValue("in1", cache);
    var in2 := dbb.GetInputValue("in2", cache);
    var options := cache.options;
    outcome := Pipeline(in1, in2, options);
    if outcome.Ok? {
      dbb.StoreOutputValue(outcome.value, "result", cache);
      dbb.RunNextBlock("action", cache);
    }
  }

  /** The options a run sees when the caller overrides some of them. */
  function RunOptions(overrides: map<string, Value>): map<string, Value> {
    MergeOptions(Defaults(Options), overrides)
  }

  /** Every option defaults to its first key. */
  lemma OptionDefaults()
    ensures Defaults(Options) == map["operation" := Str("union"), "objectProcessMethod" := Str("keys"),
                                     "sort" := Str("no"), "outputType" := Str("set")]
  {
    assert Options[..1][..0] == [];
    assert Options[..2][..1] == Options[..1];
    assert Options[..3][..2] == Options[..2];
    assert Options[..4 - 1] == Options[..3];
    assert Defaults(Options[..1]) == map["operation" := Str("union")];
    assert Defaults(Options[..2]) == map["operation" := Str("union"), "objectProcessMethod" := Str("keys")];
    assert Defaults(Options[..3]) == map["operation" := Str("union"), "objectProcessMethod" := Str("keys"),
                                         "sort" := Str("no")];
  }

  /** `DBBMock.runBlock(setOperation, inputs, overrides)`. */
  method RunBlock(inputs: map<string, Value>, overrides: map<string, Value>) returns (cache: Cache, outcome: Result<Value, Error>)
    ensures outcome == Evaluate(inputs, RunOptions(overrides))
    ensures outcome.Ok? ==> cache.outputs == map["result" := outcome.value, "action" := Called]
    ensures outcome.Err? ==> cache.outputs == map[]
  {
    var dbb;
    dbb, cache := DBBMock.PrepareRun(Options, inputs, overrides);
    outcome := Code(dbb, cache);
  }

  // ---------------------------------------------------------------------
  // Runs of the block.
  // ---------------------------------------------------------------------

  /** The caller's value for an option, or the option's first key. */
  function Chosen(overrides: map<string, Value>, id: string, first: string): Value {
    if id in overrides then overrides[id] else Str(first)
  }

  /** The option values a run sees: an override, or the option's first key. */
  lemma RunOptionsOf(overrides: map<string, Value>)
    ensures Get(RunOptions(overrides), "operation") == Chosen(overrides, "operation", "union")
    ensures Get(RunOptions(overrides), "objectProcessMethod") == Chosen(overrides, "objectProcessMethod", "keys")
    ensures Get(RunOptions(overrides), "sort") == Chosen(overrides, "sort", "no")
    ensures Get(RunOptions(overrides), "outputType") == Chosen(overrides, "outputType", "set")
  {
    RunOptionOf(overrides, 0);
    RunOptionOf(overrides, 1);
    RunOptionOf(overrides, 2);
    RunOptionOf(overrides, 3);
  }

  lemma RunOptionOf(overrides: map<string, Value>, i: int)
    requires 0 <= i < |Options|
    ensures Get(RunOptions(overrides), Options[i].id)
            == Chosen(overrides, Options[i].id, Options[i].kind.keys[0])
  {
    assert LastWithId(Options, i);
    DefaultsOfOption(Options, i);
  }

  /** A run whose inputs pass every step ends with the output conversion. */
  lemma EvaluateSteps(inputs: map<string, Value>, options: map<string, Value>,
                      p1: seq<Value>, p2: seq<Value>, operated: seq<Value>, sorted: Value)
    requires !Refused(Get(inputs, "in1")) && !Refused(Get(inputs, "in2"))
    requires ProcessInput(Get(inputs, "in1"), Get(options, "objectProcessMethod")) == Ok(p1)
    requires ProcessInput(Get(inputs, "in2"), Get(options, "objectProcessMethod")) == Ok(p2)
    requires ExecuteSetOperation(p1, p2, Get(options, "operation")) == Ok(operated)
    requires ExecuteSort(operated, Get(options, "sort")) == Ok(sorted)
    ensures Evaluate(inputs, options) == ConvertOutput(sorted, Get(options, "outputType"))
  {
  }

  /** Arrays without repeated elements are taken over as they are. */
  lemma ArraysProcessed(a: seq<Value>, b: seq<Value>, options: map<string, Value>)
    requires Distinct(a) && Distinct(b)
    ensures var m := Get(options, "objectProcessMethod");
            var inputs := map["in1" := Arr(a), "in2" := Arr(b)];
            ProcessInput(Get(inputs, "in1"), m) == Ok(a) && ProcessInput(Get(inputs, "in2"), m) == Ok(b)
            && !Refused(Get(inputs, "in1")) && !Refused(Get(inputs, "in2"))
  {
    DedupDistinct(a);
    DedupDistinct(b);
  }

  /** An iterable combined with itself by the default union gives back the
      `Set` of what it yields. */
  lemma IterableUnionWithItself(v: Value)
    requires HasIterator(v) && !v.Str?
    ensures Evaluate(map["in1" := v, "in2" := v], RunOptions(map[])) == Ok(SetObj(Dedup(v.elems)))
  {
    var inputs, options := map["in1" := v, "in2" := v], RunOptions(map[]);
    RunOptionsOf(map[]);
    var d := Dedup(v.elems);
    assert ProcessInput(v, Str("keys")) == Ok(d);
    UnionIdentity(d);
    EvaluateSteps(inputs, options, d, d, d, SetObj(d));
  }

  /** A union keeps input 1's elements first, in their order. */
  lemma UnionKeepsFirstInputOrder(a: seq<Value>, b: seq<Value>, options: map<string, Value>)
    requires Distinct(a) && Distinct(b)
    requires Get(options, "operation") == Str("union") && Get(options, "sort") == Str("no")
    requires Get(options, "outputType") == Str("array")
    ensures var r := Evaluate(map["in1" := Arr(a), "in2" := Arr(b)], options);
            r.Ok? && r.value.Arr? && |a| <= |r.value.elems| && r.value.elems[..|a|] == a
            && forall x :: x in r.value.elems <==> x in a || x in b
  {
    var inputs := map["in1" := Arr(a), "in2" := Arr(b)];
    DedupDistinct(a);
    DedupDistinct(b);
    var m := Get(options, "objectProcessMethod");
    assert ProcessInput(Arr(a), m) == Ok(a);
    assert ProcessInput(Arr(b), m) == Ok(b);
    var u := Union(a, b);
    EvaluateSteps(inputs, options, a, b, u, SetObj(u));
  }

  /** ["b", "c"] united with ["b", "a"] is ["b", "c", "a"]. */
  lemma UnionOrderExample()
    ensures Union([Str("b"), Str("c")], [Str("b"), Str("a")]) == [Str("b"), Str("c"), Str("a")]
  {
    var b := [Str("b"), Str("a")];
    assert b[1..] == [Str("a")] && b[1..][1..] == [];
  }

  /** Two arrays without repeated elements, united and stored as an array,
      give input 1's elements followed by input 2's new ones. */
  lemma UnionArrayRun(a: seq<Value>, b: seq<Value>)
    requires Distinct(a) && Distinct(b)
    ensures Evaluate(map["in1" := Arr(a), "in2" := Arr(b)],
                     RunOptions(map["operation" := Str("union"), "outputType" := Str("array")]))
            == Ok(Arr(a + KeepNotIn(b, a)))
  {
    var options := RunOptions(map["operation" := Str("union"), "outputType" := Str("array")]);
    RunOptionsOf(map["operation" := Str("union"), "outputType" := Str("array")]);
    ArraysProcessed(a, b, options);
    var u := Union(a, b);
    EvaluateSteps(map["in1" := Arr(a), "in2" := Arr(b)], options, a, b, u, SetObj(u));
  }

  /** ... so the block stores ["b", "c", "a"]. */
  lemma UnionArrayExample()
    ensures Evaluate(map["in1" := Arr([Str("b"), Str("c")]), "in2" := Arr([Str("b"), Str("a")])],
                     RunOptions(map["operation" := Str("union"), "outputType" := Str("array")]))
            == Ok(Arr([Str("b"), Str("c"), Str("a")]))
  {
    UnionOrderExample();
    UnionArrayRun([Str("b"), Str("c")], [Str("b"), Str("a")]);
  }

  /** ["a", "b"] against ["b", "c"] under each set method. */
  lemma SetMethodsExample()
    ensures var a, b := [Str("a"), Str("b")], [Str("b"), Str("c")];
            Union(a, b) == [Str("a"), Str("b"), Str("c")] && Intersection(a, b) == [Str("b")]
            && Difference(a, b) == [Str("a")] && SymmetricDifference(a, b) == [Str("a"), Str("c")]
  {
    var a, b := [Str("a"), Str("b")], [Str("b"), Str("c")];
    assert a[1..] == [Str("b")] && a[1..][1..] == [];
    assert b[1..] == [Str("c")] && b[1..][1..] == [];
  }

  /** Two arrays without repeated elements, combined by `operation` with
      the other options at their defaults, give the `Set` the operation yields. */
  lemma DefaultRun(a: seq<Value>, b: seq<Value>, operation: string, expected: seq<Value>)
    requires Distinct(a) && Distinct(b)
    requires ExecuteSetOperation(a, b, Str(operation)) == Ok(expected)
    ensures Evaluate(map["in1" := Arr(a), "in2" := Arr(b)], RunOptions(map["operation" := Str(operation)]))
            == Ok(SetObj(expected))
  {
    var options := RunOptions(map["operation" := Str(operation)]);
    RunOptionsOf(map["operation" := Str(operation)]);
    ArraysProcessed(a, b, options);
    EvaluateSteps(map["in1" := Arr(a), "in2" := Arr(b)], options, a, b, expected, SetObj(expected));
  }

  /** ... and the block stores the matching `Set`: the union and the
      intersection ... */
  lemma UnionIntersectExample()
    ensures var inputs := map["in1" := Arr([Str("a"), Str("b")]), "in2" := Arr([Str("b"), Str("c")])];
            && Evaluate(inputs, RunOptions(map["operation" := Str("union")])) == Ok(SetObj([Str("a"), Str("b"), Str("c")]))
            && Evaluate(inputs, RunOptions(map["operation" := Str("intersect")])) == Ok(SetObj([Str("b")]))
  {
    var a, b := [Str("a"), Str("b")], [Str("b"), Str("c")];
    SetMethodsExample();
    DefaultRun(a, b, "union", [Str("a"), Str("b"), Str("c")]);
    DefaultRun(a, b, "intersect", [Str("b")]);
  }

  /** ... the difference ... */
  lemma DifferenceExample()
    ensures Evaluate(map["in1" := Arr([Str("a"), Str("b")]), "in2" := Arr([Str("b"), Str("c")])],
                     RunOptions(map["operation" := Str("diff")])) == Ok(SetObj([Str("a")]))
  {
    var a, b := [Str("a"), Str("b")], [Str("b"), Str("c")];
    SetMethodsExample();
    DefaultRun(a, b, "diff", [Str("a")]);
  }

  /** ... and the symmetric difference. */
  lemma SymmetricDifferenceExample()
    ensures Evaluate(map["in1" := Arr([Str("a"), Str("b")]), "in2" := Arr([Str("b"), Str("c")])],
                     RunOptions(map["operation" := Str("symdiff")])) == Ok(SetObj([Str("a"), Str("c")]))
  {
    var a, b := [Str("a"), Str("b")], [Str("b"), Str("c")];
    SetMethodsExample();
    DefaultRun(a, b, "symdiff", [Str("a"), Str("c")]);
  }

  /** "a" < "b" < "c" under `compare`, so the sorted arrangements are these. */
  lemma SortedExample()
    ensures SortedPairwise([Str("a"), Str("b"), Str("c")], Compare)
    ensures SortedPairwise([Str("c"), Str("b"), Str("a")], CompareReversed)
  {
    var a, b, c := Str("a"), Str("b"), Str("c");
    assert Compare(a, b) < 0 && Compare(a, c) < 0 && Compare(b, c) < 0;
  }

  /** The arrangements of three elements the examples below sort. */
  lemma Rotated<T>(a: T, b: T, c: T)
    ensures multiset([b, c, a]) == multiset([a, b, c])
  {
  }

  lemma Reversed<T>(a: T, b: T, c: T)
    ensures multiset([a, b, c]) == multiset([c, b, a])
  {
  }

  /** Sorting ["b", "c", "a"] gives ["a", "b", "c"] ... */
  lemma SortExample()
    ensures ExecuteSort([Str("b"), Str("c"), Str("a")], Str("alpha")) == Ok(Arr([Str("a"), Str("b"), Str("c")]))
  {
    var a, b, c := Str("a"), Str("b"), Str("c");
    SortedExample();
    Rotated(a, b, c);
    SortIsTheOrderedPermutation([b, c, a], [a, b, c], Str("alpha"));
  }

  /** ... and in reverse ["c", "b", "a"]. */
  lemma ReverseSortExample()
    ensures ExecuteSort([Str("a"), Str("b"), Str("c")], Str("alpharev")) == Ok(Arr([Str("c"), Str("b"), Str("a")]))
  {
    var a, b, c := Str("a"), Str("b"), Str("c");
    SortedExample();
    Reversed(a, b, c);
    SortIsTheOrderedPermutation([a, b, c], [c, b, a], Str("alpharev"));
  }

  /** An object with one property gives that key, or that value. */
  lemma OneProperty(key: string, val: Value)
    ensures ProcessInput(Obj([Prop(key, val)]), Str("keys")) == Ok([Str(key)])
    ensures ProcessInput(Obj([Prop(key, val)]), Str("values")) == Ok([val])
  {
    var o := Obj([Prop(key, val)]);
    var ks, vs := ObjectKeys(o), ObjectValues(o);
    assert |ks| == 1 && ks[0] == Str(key);
    assert ks == [Str(key)];
    assert |vs| == 1 && vs[0] == val;
    assert vs == [val];
    DedupDistinct([Str(key)]);
    DedupDistinct([val]);
  }

  /** Inputs that pass processing by `processMethod`, united with the
      default sort and output type. */
  lemma ProcessMethodRun(v1: Value, v2: Value, processMethod: string, p1: seq<Value>, p2: seq<Value>)
    requires !Refused(v1) && !Refused(v2)
    requires ProcessInput(v1, Str(processMethod)) == Ok(p1) && ProcessInput(v2, Str(processMethod)) == Ok(p2)
    ensures Evaluate(map["in1" := v1, "in2" := v2], RunOptions(map["objectProcessMethod" := Str(processMethod)]))
            == Ok(SetObj(Union(p1, p2)))
  {
    var inputs, overrides := map["in1" := v1, "in2" := v2], map["objectProcessMethod" := Str(processMethod)];
    var options := RunOptions(overrides);
    RunOptionsOf(overrides);
    assert Get(inputs, "in1") == v1 && Get(inputs, "in2") == v2;
    UnionSteps(p1, p2);
    EvaluateSteps(inputs, options, p1, p2, Union(p1, p2), SetObj(Union(p1, p2)));
  }

  /** The default steps after processing: the union, no sort, a `Set`. */
  lemma UnionSteps(p1: seq<Value>, p2: seq<Value>)
    requires Distinct(p1) && Distinct(p2)
    ensures ExecuteSetOperation(p1, p2, Str("union")) == Ok(Union(p1, p2))
    ensures ExecuteSort(Union(p1, p2), Str("no")) == Ok(SetObj(Union(p1, p2)))
    ensures ConvertOutput(SetObj(Union(p1, p2)), Str("set")) == Ok(SetObj(Union(p1, p2)))
  {
  }

  /** When both inputs are accepted but input 1 cannot be processed, the
      run ends with that error before input 2 is processed. */
  lemma FirstProcessingError(inputs: map<string, Value>, options: map<string, Value>)
    requires !Refused(Get(inputs, "in1")) && !Refused(Get(inputs, "in2"))
    requires ProcessInput(Get(inputs, "in1"), Get(options, "objectProcessMethod")).Err?
    ensures Evaluate(inputs, options) == ProcessInput(Get(inputs, "in1"), Get(options, "objectProcessMethod")).PropagateFailure()
  {
  }

  /** A non-iterable object under a method other than "keys" and "values"
      is refused, naming the method. */
  lemma InvalidProcessMethodRun(o: Value, v2: Value, processMethod: string)
    requires o.Obj? && !Refused(v2) && processMethod != "keys" && processMethod != "values"
    ensures Evaluate(map["in1" := o, "in2" := v2], RunOptions(map["objectProcessMethod" := Str(processMethod)]))
            == Err(InvalidObjectProcessMethod(Str(processMethod)))
  {
    var overrides := map["objectProcessMethod" := Str(processMethod)];
    RunOptionsOf(overrides);
    assert ProcessInput(o, Str(processMethod)) == Err(InvalidObjectProcessMethod(Str(processMethod)));
    FirstProcessingError(map["in1" := o, "in2" := v2], RunOptions(overrides));
  }

  /** Bare numbers are refused as unknown input, the first one reported. */
  lemma UnknownInputExample()
    ensures Evaluate(map["in1" := Num(3), "in2" := Num(5)], RunOptions(map[])) == Err(UnknownInput(Num(3)))
  {
    var inputs := map["in1" := Num(3), "in2" := Num(5)];
    assert Get(inputs, "in1") == Num(3) && Get(inputs, "in2") == Num(5);
    RunOptionsOf(map[]);
    FirstProcessingError(inputs, RunOptions(map[]));
  }
}

/** The legacy JavaScript "Set Operation" block (blocks/set-operation.js).
    Its pipeline is the one of blocks/set-operation.ts with other option and
    input ids, capitalised error messages, a `processInput` that returns
    `undefined` for a value that is neither iterable nor an object, and a
    sort that compares with `localeCompare` directly. */
module SetOperationLegacy {
  import opened Results
  import opened JsValue
  import opened JsString
  import opened JsSet
  import opened Sorting
  import opened Host
  import SetOperation

  type Error = SetOperation.Error

  /** The block's SELECT options, each with its keys in listing order. */
  const Options: seq<BlockOption> := [
    BlockOption("operation", SelectOption(["union", "intersect", "diff", "symdiff"])),
    BlockOption("object-process", SelectOption(["keys", "values"])),
    BlockOption("sort", SelectOption(["no", "alpha", "alpharev"])),
    BlockOption("output-type", SelectOption(["set", "array"]))
  ]

  /** The message of the thrown `Error`; this file capitalises the option errors. */
  function Message(e: Error): string {
    match e
    case InvalidObjectProcessMethod(m) => "Invalid object process method: " + ToString(m)
    case InvalidSetOperation(op) => "Invalid set operation: " + ToString(op)
    case InvalidSortMethod(m) => "Invalid sort method: " + ToString(m)
    case InvalidOutputType(t) => "Invalid output type: " + ToString(t)
    case _ => SetOperation.Message(e)
  }

  /** `processInput`: strings, `undefined` and `null` are refused again with
      a message of its own; an iterable becomes the set of what it yields,
      a non-iterable object the set of its keys or values; for anything
      else the function ends without a return value (`None`). */
  function ProcessInput(input: Value, processMethod: Value): (r: Result<Option<seq<Value>>, Error>)
    ensures r.Ok? && r.value.Some? ==> Distinct(r.value.value)
    ensures SetOperation.Refused(input) ==> r == Err(SetOperation.InputRejected)
    ensures HasIterator(input) && !input.Str?
            ==> r.Ok? && r.value.Some? && forall x :: x in r.value.value <==> x in Iterate(input)
    ensures (input.Obj? || input.DateObj?) && processMethod == Str("keys")
            ==> r.Ok? && r.value.Some? && forall x :: x in r.value.value <==> x in ObjectKeys(input)
    ensures (input.Obj? || input.DateObj?) && processMethod == Str("values")
            ==> r.Ok? && r.value.Some? && forall x :: x in r.value.value <==> x in ObjectValues(input)
    ensures (input.Obj? || input.DateObj?) && processMethod != Str("keys") && processMethod != Str("values")
            ==> r == Err(SetOperation.InvalidObjectProcessMethod(processMethod))
    ensures (input.Bool? || input.Num?) ==> r == Ok(None)
  {
    if input.Str? || input.Undefined? || input.Null? then Err(SetOperation.InputRejected)
    else if HasIterator(input) then Ok(Some(Dedup(Iterate(input))))
    else if IsObjectType(input) then
      if processMethod == Str("keys") then Ok(Some(Dedup(ObjectKeys(input))))
      else if processMethod == Str("values") then Ok(Some(Dedup(ObjectValues(input))))
      else Err(SetOperation.InvalidObjectProcessMethod(processMethod))
    else Ok(None)
  }

  /** On the inputs both accept, the two `processInput`s agree, except
      that the legacy one returns `undefined` where the other throws
      "unknown input". */
  lemma ProcessInputAgrees(input: Value, processMethod: Value)
    requires !SetOperation.Refused(input)
    ensures match SetOperation.ProcessInput(input, processMethod)
            case Ok(s) => ProcessInput(input, processMethod) == Ok(Some(s))
            case Err(e) => ProcessInput(input, processMethod) == (if e.UnknownInput? then Ok(None) else Err(e))
  {
  }

  /** A known operation name. */
  predicate KnownOperation(operation: Value) {
    operation in [Str("union"), Str("intersect"), Str("diff"), Str("symdiff")]
  }

  /** `executeSetOperation`: an unknown operation is refused before either
      set is touched; a known one on an `undefined` operand is a TypeError;
      otherwise the `Set` method of blocks/set-operation.ts. */
  function ExecuteSetOperation(a: Option<seq<Value>>, b: Option<seq<Value>>, operation: Value): (r: Result<seq<Value>, Error>)
    requires a.Some? ==> Distinct(a.value)
    requires b.Some? ==> Distinct(b.value)
    ensures !KnownOperation(operation) ==> r == Err(SetOperation.InvalidSetOperation(operation))
    ensures KnownOperation(operation) && (a.None? || b.None?) ==> r == Err(SetOperation.NotASet)
    ensures a.Some? && b.Some? ==> r == SetOperation.ExecuteSetOperation(a.value, b.value, operation)
  {
    if !KnownOperation(operation) then Err(SetOperation.InvalidSetOperation(operation))
    else if a.None? || b.None? then Err(SetOperation.NotASet)
    else SetOperation.ExecuteSetOperation(a.value, b.value, operation)
  }

  /** The comparator `(a, b) => a.localeCompare(b, undefined, { numeric: true })`.
      The sort calls it only when every defined element is a string (see
      `ExecuteSort`), and there `ToString` leaves both operands as they are. */
  function LocaleOrder(a: Value, b: Value): int {
    LocaleCompare(ToString(a), ToString(b))
  }

  /** The comparator `(a, b) => b.localeCompare(a, ...)` of the reverse sort. */
  function LocaleOrderReversed(a: Value, b: Value): int {
    LocaleOrder(b, a)
  }

  lemma LocaleOrderSignFlips(s: seq<Value>)
    ensures SignFlips(s, LocaleOrder) && SignFlips(s, LocaleOrderReversed)
  {
    forall a, b | a in s && b in s ensures LocaleOrder(b, a) == -LocaleOrder(a, b) {
      LocaleCompareFlip(ToString(a), ToString(b));
    }
  }

  /** The sort reaches `localeCompare` on a receiver that is not a string:
      there are at least two elements to compare (`undefined` ones are set
      aside without a call) and one of them is not a string. */
  predicate ComparesNonString(s: seq<Value>) {
    |Defined(s)| >= 2 && !SetOperation.AllStrings(Defined(s))
  }

  /** `executeSort`: "no" keeps the set; "alpha" and "alpharev" give an
      array of the same elements in ascending or descending `localeCompare`
      order, with `undefined` elements last, and throw a TypeError when a
      non-string would be compared; any other method is refused. */
  function ExecuteSort(s: seq<Value>, sortMethod: Value): (r: Result<Value, Error>)
    ensures r.Ok? ==> r.value.SetObj? || r.value.Arr?
    ensures r.Ok? ==> multiset(r.value.elems) == multiset(s) && |r.value.elems| == |s|
    ensures sortMethod == Str("no") ==> r == Ok(SetObj(s))
    ensures sortMethod == Str("alpha") && !ComparesNonString(s)
            ==> r.Ok? && r.value.Arr? && Sorted(r.value.elems[..|Defined(s)|], LocaleOrder)
    ensures sortMethod == Str("alpharev") && !ComparesNonString(s)
            ==> r.Ok? && r.value.Arr? && Sorted(r.value.elems[..|Defined(s)|], LocaleOrderReversed)
    ensures sortMethod !in [Str("no"), Str("alpha"), Str("alpharev")]
            ==> r == Err(SetOperation.InvalidSortMethod(sortMethod))
    ensures r.Err? <==> sortMethod !in [Str("no"), Str("alpha"), Str("alpharev")]
                        || (sortMethod != Str("no") && ComparesNonString(s))
    ensures sortMethod == Str("alpha") && ComparesNonString(s) ==> r == Err(SetOperation.NoLocaleCompare("a"))
    ensures sortMethod == Str("alpharev") && ComparesNonString(s) ==> r == Err(SetOperation.NoLocaleCompare("b"))
  {
    LocaleOrderSignFlips(Defined(s));
    if sortMethod == Str("no") then Ok(SetObj(s))
    else if sortMethod == Str("alpha") then
      if ComparesNonString(s) then Err(SetOperation.NoLocaleCompare("a"))
      else
        SortBySorted(Defined(s), LocaleOrder);
        Ok(Arr(ArraySort(s, LocaleOrder)))
    else if sortMethod == Str("alpharev") then
      if ComparesNonString(s) then Err(SetOperation.NoLocaleCompare("b"))
      else
        SortBySorted(Defined(s), LocaleOrderReversed);
        Ok(Arr(ArraySort(s, LocaleOrderReversed)))
    else Err(SetOperation.InvalidSortMethod(sortMethod))
  }

  /** Numbers are not sorted by the legacy block: `[1, 2]` sorted "alpha"
      ends in the TypeError, while a single number needs no comparison. */
  lemma NumbersAreNotCompared()
    ensures ExecuteSort([Num(1), Num(2)], Str("alpha")) == Err(SetOperation.NoLocaleCompare("a"))
    ensures ExecuteSort([Num(1)], Str("alpha")).Ok?
  {
    assert Defined([Num(1), Num(2)]) == [Num(1), Num(2)];
    assert Num(1) in Defined([Num(1), Num(2)]);
  }

  /** Sortedness carries over to a comparator that agrees on neighbours. */
  lemma SortedAgrees(t: seq<Value>, c1: (Value, Value) -> int, c2: (Value, Value) -> int)
    requires Sorted(t, c1)
    requires forall i :: 0 <= i < |t| - 1 ==> c1(t[i], t[i + 1]) == c2(t[i], t[i + 1])
    ensures Sorted(t, c2)
  {
  }

  /** The legacy "alpha" sort of strings is ordered pairwise by `compare`. */
  lemma AscendingAgrees(s: seq<Value>)
    requires SetOperation.AllStrings(s)
    ensures SortedPairwise(SortBy(s, LocaleOrder), SetOperation.Compare)
  {
    var t := SortBy(s, LocaleOrder);
    MultisetMembers(t, s);
    LocaleOrderSignFlips(s);
    SortBySorted(s, LocaleOrder);
    assert forall i :: 0 <= i < |t| - 1 ==> LocaleOrder(t[i], t[i + 1]) == SetOperation.Compare(t[i], t[i + 1]) by {
      forall i | 0 <= i < |t| - 1 ensures LocaleOrder(t[i], t[i + 1]) == SetOperation.Compare(t[i], t[i + 1]) {
        assert t[i] in t && t[i + 1] in t;
      }
    }
    SortedAgrees(t, LocaleOrder, SetOperation.Compare);
    assert SetOperation.AllStrings(t);
    SetOperation.CompareTotalOrder(t);
    SortedIsPairwise(t, SetOperation.Compare);
  }

  /** The legacy "alpharev" sort of strings is ordered pairwise by reversed `compare`. */
  lemma DescendingAgrees(s: seq<Value>)
    requires SetOperation.AllStrings(s)
    ensures SortedPairwise(SortBy(s, LocaleOrderReversed), SetOperation.CompareReversed)
  {
    var t := SortBy(s, LocaleOrderReversed);
    MultisetMembers(t, s);
    LocaleOrderSignFlips(s);
    SortBySorted(s, LocaleOrderReversed);
    assert forall i :: 0 <= i < |t| - 1 ==> LocaleOrderReversed(t[i], t[i + 1]) == SetOperation.CompareReversed(t[i], t[i + 1]) by {
      forall i | 0 <= i < |t| - 1 ensures LocaleOrderReversed(t[i], t[i + 1]) == SetOperation.CompareReversed(t[i], t[i + 1]) {
        assert t[i] in t && t[i + 1] in t;
      }
    }
    SortedAgrees(t, LocaleOrderReversed, SetOperation.CompareReversed);
    assert SetOperation.AllStrings(t);
    SetOperation.CompareTotalOrder(t);
    SortedIsPairwise(t, SetOperation.CompareReversed);
  }

  /** On strings the two comparators agree, so the legacy sort and the
      sort of blocks/set-operation.ts give the same array. */
  lemma SortAgreesOnStrings(s: seq<Value>, sortMethod: Value)
    requires SetOperation.AllStrings(s)
    ensures ExecuteSort(s, sortMethod) == SetOperation.ExecuteSort(s, sortMethod)
  {
    assert Undefined !in s;
    assert !ComparesNonString(s);
    if sortMethod == Str("alpha") {
      ArraySortDefined(s, LocaleOrder);
      AscendingAgrees(s);
      SetOperation.SortIsTheOrderedPermutation(s, SortBy(s, LocaleOrder), sortMethod);
    } else if sortMethod == Str("alpharev") {
      ArraySortDefined(s, LocaleOrderReversed);
      DescendingAgrees(s);
      SetOperation.SortIsTheOrderedPermutation(s, SortBy(s, LocaleOrderReversed), sortMethod);
    }
  }

  // ---------------------------------------------------------------------
  // The block.
  // ---------------------------------------------------------------------

  /** What one run computes from the cache: the value stored under
      "result", or the error that ends the run. */
  function Evaluate(inputs: map<string, Value>, options: map<string, Value>): Result<Value, Error> {
    Pipeline(Get(inputs, "input-1"), Get(inputs, "input-2"), options)
  }

  /** The steps of `code()` between reading the inputs and storing the
      result, in the order it takes them; the first that throws ends it. */
  function Pipeline(in1: Value, in2: Value, options: map<string, Value>): Result<Value, Error> {
    var valid1 :- SetOperation.ValidateInput(in1, "Input 1");
    var valid2 :- SetOperation.ValidateInput(in2, "Input 2");
    var processed1 :- ProcessInput(in1, Get(options, "object-process"));
    var processed2 :- ProcessInput(in2, Get(options, "object-process"));
    var operated :- ExecuteSetOperation(processed1, processed2, Get(options, "operation"));
    var sorted :- ExecuteSort(operated, Get(options, "sort"));
    SetOperation.ConvertOutput(sorted, Get(options, "output-type"))
  }

  /** Input 1 is checked before input 2, both before any processing, and
      `processInput`'s own refusal can therefore never be reached. */
  lemma ValidationComesFirst(inputs: map<string, Value>, options: map<string, Value>)
    ensures SetOperation.Refused(Get(inputs, "input-1"))
            ==> Evaluate(inputs, options) == Err(SetOperation.NotACollection("Input 1"))
    ensures !SetOperation.Refused(Get(inputs, "input-1")) && SetOperation.Refused(Get(inputs, "input-2"))
            ==> Evaluate(inputs, options) == Err(SetOperation.NotACollection("Input 2"))
    ensures Evaluate(inputs, options) != Err(SetOperation.InputRejected)
  {
  }

  /** A bare number passes processing as `undefined`; a known operation then
      fails on it with a TypeError, an unknown one with its own error. */
  lemma NumberInput(inputs: map<string, Value>, options: map<string, Value>)
    requires Get(inputs, "input-1").Num? && (Get(inputs, "input-2").Num? || Get(inputs, "input-2").Arr?)
    ensures KnownOperation(Get(options, "operation")) ==> Evaluate(inputs, options) == Err(SetOperation.NotASet)
    ensures !KnownOperation(Get(options, "operation"))
            ==> Evaluate(inputs, options) == Err(SetOperation.InvalidSetOperation(Get(options, "operation")))
  {
  }

  /** `code()`: runs the pipeline on the cache; on success stores the
      result and fires "action", on error changes nothing. */
  method Code(dbb: DBBMock, cache: Cache) returns (outcome: Result<Value, Error>)
    modifies cache`outputs
    ensures outcome == Evaluate(old(cache.inputs), old(cache.options))
    ensures outcome.Ok? ==> cache.outputs == old(cache.outputs)["result" := outcome.value]["action" := Called]
    ensures outcome.Err? ==> cache.outputs == old(cache.outputs)
  {
    var in1 := dbb.GetInputValue("input-1", cache);
    var in2 := dbb.GetInputValue("input-2", cache);
    var options := cache.options;
    outcome := Pipeline(in1, in2, options);
    if outcome.Ok? {
      dbb.StoreOutputValue(outcome.value, "result", cache);
      dbb.RunNextBlock("action", cache);
    }
  }

  /** The options a run sees when the caller overrides some of them. */
  function RunOptions(overrides: map<string, Value>): map<string, Value> {
    MergeOptions(Defaults(Options), overrides)
  }

  /** `DBBMock.runBlock(setOperation, inputs, overrides)`. */
  method RunBlock(inputs: map<string, Value>, overrides: map<string, Value>) returns (cache: Cache, outcome: Result<Value, Error>)
    ensures outcome == Evaluate(inputs, RunOptions(overrides))
    ensures outcome.Ok? ==> cache.outputs == map["result" := outcome.value, "action" := Called]
    ensures outcome.Err? ==> cache.outputs == map[]
  {
    var dbb;
    dbb, cache := DBBMock.PrepareRun(Options, inputs, overrides);
    outcome := Code(dbb, cache);
  }
}

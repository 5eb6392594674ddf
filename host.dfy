/** The test host that runs a block once: `DBBMock` in the source. It hands
    the block a cache of inputs, options and outputs, and records what the
    block stores and which continuations it fires. */
module Host {
  import opened JsValue

  /** The type of a block option; a SELECT lists its choices' keys in
      `Object.keys` order. */
  datatype OptionType = TextOption | ColorOption | NumberOption | SelectOption(keys: seq<string>)

  /** One entry of a block descriptor's `options` list. */
  datatype BlockOption = BlockOption(id: string, kind: OptionType)

  /** The default of one option: a SELECT's first key, otherwise `undefined`. */
  function DefaultOf(opt: BlockOption): Value {
    match opt.kind
    case SelectOption(keys) => if |keys| > 0 then Str(keys[0]) else Undefined
    case _ => Undefined
  }

  /** No later option of the list has the same id as option `i`. */
  predicate LastWithId(opts: seq<BlockOption>, i: int)
    requires 0 <= i < |opts|
  {
    forall j :: i < j < |opts| ==> opts[j].id != opts[i].id
  }

  /** `Object.fromEntries(options.map(...))`: one entry per option id, the
      later of two options with the same id winning. */
  function Defaults(opts: seq<BlockOption>): (r: map<string, Value>)
    ensures r.Keys == set o | o in opts :: o.id
  {
    if opts == [] then map[]
    else
      var init := opts[..|opts| - 1];
      var last := opts[|opts| - 1];
      assert opts == init + [last];
      assert (set o | o in opts :: o.id) == (set o | o in init :: o.id) + {last.id};
      Defaults(init)[last.id := DefaultOf(last)]
  }

  /** Each option defaults to its own default unless a later option reuses its id. */
  lemma {:induction false} DefaultsOfOption(opts: seq<BlockOption>, i: int)
    requires 0 <= i < |opts| && LastWithId(opts, i)
    ensures opts[i].id in Defaults(opts) && Defaults(opts)[opts[i].id] == DefaultOf(opts[i])
  {
    var n := |opts| - 1;
    if i < n {
      var init := opts[..n];
      assert opts[n].id != opts[i].id;
      assert LastWithId(init, i) by {
        forall j | i < j < |init| ensures init[j].id != init[i].id {
          assert init[j] == opts[j];
        }
      }
      DefaultsOfOption(init, i);
    }
  }

  /** `{ ...defaults, ...overrides }`. */
  function MergeOptions(defaults: map<string, Value>, overrides: map<string, Value>): (r: map<string, Value>)
    ensures r.Keys == defaults.Keys + overrides.Keys
    ensures forall k :: k in overrides ==> r[k] == overrides[k]
    ensures forall k :: k in defaults && k !in overrides ==> r[k] == defaults[k]
  {
    defaults + overrides
  }

  /** The per-run record a block reads and writes. */
  class Cache {
    var inputs: map<string, Value>
    var options: map<string, Value>
    var outputs: map<string, Value>

    constructor (inputs: map<string, Value>, options: map<string, Value>)
      ensures this.inputs == inputs && this.options == options && outputs == map[]
    {
      this.inputs := inputs;
      this.options := options;
      outputs := map[];
    }
  }

  class DBBMock {

    constructor ()
    {
    }

    function GetInputValue(key: string, cache: Cache): (v: Value)
      reads cache
      ensures v == Get(cache.inputs, key)
    {
      Get(cache.inputs, key)
    }

    function GetOptionValue(key: string, cache: Cache): (v: Value)
      reads cache
      ensures v == Get(cache.options, key)
    {
      Get(cache.options, key)
    }

    method StoreOutputValue(value: Value, key: string, cache: Cache)
      modifies cache`outputs
      ensures cache.outputs == old(cache.outputs)[key := value]
    {
      cache.outputs := cache.outputs[key := value];
    }

    method RunNextBlock(key: string, cache: Cache)
      modifies cache`outputs
      ensures cache.outputs == old(cache.outputs)[key := Called]
    {
      cache.outputs := cache.outputs[key := Called];
    }

    /** The part of `runBlock` before the block's code runs: the inputs as
        given, the options merged over the descriptor's defaults, and no
        outputs yet. */
    static method PrepareRun(opts: seq<BlockOption>, inputs: map<string, Value>, overrides: map<string, Value>)
      returns (dbb: DBBMock, cache: Cache)
      ensures fresh(cache)
      ensures cache.inputs == inputs
      ensures cache.options == MergeOptions(Defaults(opts), overrides)
      ensures cache.outputs == map[]
    {
      var defaults := Defaults(opts);
      cache := new Cache(inputs, MergeOptions(defaults, overrides));
      dbb := new DBBMock();
    }
  }
}

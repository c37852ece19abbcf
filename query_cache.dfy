/** The typed query cache: what `@cached` accepts and checks, how a call of
    a cached method turns its positional arguments into tags, and
    `invalidate` over schema values. The cache stores through the
    primitives with their default durations. */
module QueryCacheModel {
  import opened Types
  import opened Schema
  import MA = MemoryAdapter
  import P = PrimitivesEngine
  import Engine

  /** What `@cached` may be given. */
  datatype Cacheable = PlainSpec(spec: TagSpec) | ViewSpec(view: ClassView) | SchemaSpec(instance: SchemaInstance)

  /** `_to_tag_spec`. */
  function ToTagSpec(c: Cacheable): Result<TagSpec>
  {
    match c
    case PlainSpec(spec) => Ok(spec)
    case ViewSpec(view) => Ok(view.spec)
    case SchemaSpec(_) => Err(NotATagSpec)
  }

  /** Every spec converted, in order; the first that cannot be is the
      error. */
  function ToTagSpecs(cs: seq<Cacheable>): Result<seq<TagSpec>>
  {
    if cs == [] then Ok([])
    else
      match ToTagSpec(cs[0])
      case Err(e) => Err(e)
      case Ok(spec) =>
        match ToTagSpecs(cs[1..])
        case Err(e) => Err(e)
        case Ok(rest) => Ok([spec] + rest)
  }

  /** Conversion keeps a spec, unwraps the views and refuses a schema
      instance; a list converts exactly when none of it is a schema
      instance, element by element. */
  lemma {:induction false} ToTagSpecsContract(cs: seq<Cacheable>)
    ensures ToTagSpecs(cs).Ok? <==> forall i | 0 <= i < |cs| :: !cs[i].SchemaSpec?
    ensures ToTagSpecs(cs).Err? ==> ToTagSpecs(cs) == Err(NotATagSpec)
    ensures ToTagSpecs(cs).Ok? ==> (|ToTagSpecs(cs).value| == |cs| &&
      forall i | 0 <= i < |cs| :: ToTagSpec(cs[i]) == Ok(ToTagSpecs(cs).value[i]))
  {
    if cs != [] {
      ToTagSpecsContract(cs[1..]);
      if ToTagSpecs(cs).Ok? {
        var rest := ToTagSpecs(cs[1..]).value;
        forall i | 0 <= i < |cs| ensures ToTagSpec(cs[i]) == Ok(ToTagSpecs(cs).value[i]) {
          if i > 0 {
            assert cs[1..][i - 1] == cs[i];
          }
        }
      } else if ToTagSpec(cs[0]).Ok? {
        var i :| 0 <= i < |cs[1..]| && cs[1..][i].SchemaSpec?;
        assert cs[i + 1].SchemaSpec?;
      }
    }
  }

  /** The largest wild count, 0 for no specs. */
  function MaxWild(specs: seq<TagSpec>): int
  {
    if specs == [] then 0
    else if |specs| == 1 then specs[0].wildCount
    else
      var m := MaxWild(specs[..|specs| - 1]);
      var w := specs[|specs| - 1].wildCount;
      if m >= w then m else w
  }

  /** `MaxWild` is the maximum: no count above it, and it is one of the
      counts when there are any. */
  lemma {:induction false} MaxWildIsMaximum(specs: seq<TagSpec>)
    ensures forall i | 0 <= i < |specs| :: specs[i].wildCount <= MaxWild(specs)
    ensures specs != [] ==> exists i | 0 <= i < |specs| :: specs[i].wildCount == MaxWild(specs)
    ensures specs == [] ==> MaxWild(specs) == 0
  {
    if |specs| == 1 {
      assert specs[0].wildCount == MaxWild(specs);
    } else if |specs| > 1 {
      var init := specs[..|specs| - 1];
      MaxWildIsMaximum(init);
      var j :| 0 <= j < |init| && init[j].wildCount == MaxWild(init);
      assert specs[j] == init[j];
      if MaxWild(init) < specs[|specs| - 1].wildCount {
        assert specs[|specs| - 1].wildCount == MaxWild(specs);
      } else {
        assert specs[j].wildCount == MaxWild(specs);
      }
      forall i | 0 <= i < |specs| ensures specs[i].wildCount <= MaxWild(specs) {
        if i < |specs| - 1 {
          assert specs[i] == init[i];
        }
      }
    }
  }

  /** The number of parameters other than `self`. */
  function CountNonSelf(params: seq<string>): nat
  {
    if params == [] then 0 else CountNonSelf(params[1..]) + (if params[0] == "self" then 0 else 1)
  }

  /** A decorated method: its attribute name and its tag specs. */
  datatype Descriptor = Descriptor(name: string, specs: seq<TagSpec>)

  /** `QueryDescriptor.__init__`: convert the specs, then insist that the
      largest wild count is the number of parameters besides `self`. */
  function NewDescriptor(name: string, cs: seq<Cacheable>, params: seq<string>): Result<Descriptor>
  {
    match ToTagSpecs(cs)
    case Err(e) => Err(e)
    case Ok(specs) =>
      if MaxWild(specs) != CountNonSelf(params) then Err(WildCountMismatch(MaxWild(specs), CountNonSelf(params)))
      else Ok(Descriptor(name, specs))
  }

  /** Decorating succeeds exactly when every spec converts and the largest
      wild count is the parameter count; the descriptor keeps the converted
      specs in order, and then no spec has more wildcards than the method
      has parameters. A conversion failure is reported before a count
      mismatch. */
  lemma NewDescriptorContract(name: string, cs: seq<Cacheable>, params: seq<string>)
    ensures NewDescriptor(name, cs, params).Ok? <==>
      (ToTagSpecs(cs).Ok? && MaxWild(ToTagSpecs(cs).value) == CountNonSelf(params))
    ensures ToTagSpecs(cs).Err? ==> NewDescriptor(name, cs, params) == Err(NotATagSpec)
    ensures NewDescriptor(name, cs, params).Ok? ==>
      (NewDescriptor(name, cs, params).value == Descriptor(name, ToTagSpecs(cs).value) &&
       forall i | 0 <= i < |NewDescriptor(name, cs, params).value.specs| ::
         NewDescriptor(name, cs, params).value.specs[i].wildCount <= CountNonSelf(params))
  {
    ToTagSpecsContract(cs);
    if ToTagSpecs(cs).Ok? {
      MaxWildIsMaximum(ToTagSpecs(cs).value);
    }
  }

  /** The end of Python's slice `args[:k]`: a negative `k` counts from the
      end, and both are clamped to the sequence. */
  function SliceEnd(k: int, n: nat): nat
  {
    if k >= 0 then (if k <= n then k else n)
    else if n + k >= 0 then n + k
    else 0
  }

  /** The arguments a spec's wildcards are filled from. */
  function SpecArgs(spec: TagSpec, args: seq<string>): seq<string>
  {
    args[..SliceEnd(spec.wildCount, |args|)]
  }

  /** The tags of one call of a cached method: one per spec, in order; the
      first that cannot be filled is the error. */
  function CallTags(specs: seq<TagSpec>, args: seq<string>): Result<seq<Tag>>
  {
    if specs == [] then Ok([])
    else
      match FillPath(specs[0].segments, SpecArgs(specs[0], args))
      case Err(e) => Err(e)
      case Ok(tag) =>
        match CallTags(specs[1..], args)
        case Err(e) => Err(e)
        case Ok(rest) => Ok([tag] + rest)
  }

  /** A call builds its tags exactly when every spec can be filled from its
      leading arguments, and then the i-th tag is the i-th spec filled. */
  lemma {:induction false} CallTagsContract(specs: seq<TagSpec>, args: seq<string>)
    ensures CallTags(specs, args).Ok? <==>
      forall i | 0 <= i < |specs| :: FillPath(specs[i].segments, SpecArgs(specs[i], args)).Ok?
    ensures CallTags(specs, args).Ok? ==> (|CallTags(specs, args).value| == |specs| &&
      forall i | 0 <= i < |specs| :: Ok(CallTags(specs, args).value[i]) == FillPath(specs[i].segments, SpecArgs(specs[i], args)))
  {
    if specs != [] {
      CallTagsContract(specs[1..], args);
      forall i | 0 < i < |specs| ensures specs[1..][i - 1] == specs[i] { }
      if CallTags(specs, args).Err? && FillPath(specs[0].segments, SpecArgs(specs[0], args)).Ok? {
        var i :| 0 <= i < |specs[1..]| && FillPath(specs[1..][i].segments, SpecArgs(specs[1..][i], args)).Err?;
        assert specs[i + 1] == specs[1..][i];
      }
    }
  }

  /** A validated descriptor called with as many positional arguments as
      it has parameters always builds its tags, provided its specs count
      their own wildcards; the i-th tag fills the i-th spec from the first
      `wildCount` arguments. */
  lemma ValidatedCallBuildsTags(desc: Descriptor, args: seq<string>)
    requires MaxWild(desc.specs) == |args|
    requires forall i | 0 <= i < |desc.specs| :: Consistent(desc.specs[i]) && desc.specs[i].wildCount >= 0
    ensures CallTags(desc.specs, args).Ok? && |CallTags(desc.specs, args).value| == |desc.specs|
    ensures forall i | 0 <= i < |desc.specs| ::
      (desc.specs[i].wildCount <= |args| &&
       Ok(CallTags(desc.specs, args).value[i]) == FillPath(desc.specs[i].segments, args[..desc.specs[i].wildCount]))
  {
    MaxWildIsMaximum(desc.specs);
    forall i | 0 <= i < |desc.specs|
      ensures FillPath(desc.specs[i].segments, SpecArgs(desc.specs[i], args)).Ok?
      ensures SpecArgs(desc.specs[i], args) == args[..desc.specs[i].wildCount]
    {
      FillPathContract(desc.specs[i].segments, SpecArgs(desc.specs[i], args));
    }
    CallTagsContract(desc.specs, args);
  }

  /** What `invalidate` may be given. */
  datatype Invalidatable = TypedArg(tag: TypedTag) | SchemaArg(instance: SchemaInstance) | NodeArg(node: WildNode) | OtherArg

  /** Whether an argument is a tag value, and its path. */
  predicate IsTagValue(a: Invalidatable)
  {
    !a.OtherArg?
  }

  function PathOf(a: Invalidatable): Tag
    requires IsTagValue(a)
  {
    match a
    case TypedArg(tag) => tag.path
    case SchemaArg(instance) => instance.path
    case NodeArg(node) => node.path
  }

  /** The paths of a list of tag values, in order. */
  function Paths(args: seq<Invalidatable>): seq<Tag>
    requires forall i | 0 <= i < |args| :: IsTagValue(args[i])
    ensures |Paths(args)| == |args| && forall i | 0 <= i < |args| :: Paths(args)[i] == PathOf(args[i])
  {
    if args == [] then [] else Paths(args[..|args| - 1]) + [PathOf(args[|args| - 1])]
  }

  /** How a `QueryCache` subclass names its schema: through the generic
      parameter, which `schemaType` names (None for the bare `TagSchema`),
      or not at all. */
  datatype SchemaParam = Unparameterised | Parameterised(schemaType: Option<string>)

  /** A cache over the primitives, with the root instance of its schema. */
  class QueryCache<V> {
    const primitives: P.Primitives<V>
    /** What reading `t` gives: the root schema instance, or the
        AttributeError of the missing `_t` when the class has no schema
        parameter. */
    const t: Result<SchemaInstance>

    ghost predicate Valid()
      reads this, primitives, primitives.adapter
    {
      primitives.Valid()
    }

    /** The cache creates its primitives from validated settings. Only a
        class with a schema parameter sets `_t`, to an instance of that
        schema at the empty path; otherwise reading `t` raises
        AttributeError. */
    constructor (adapter: MA.Adapter<V>, settings: P.Settings, param: SchemaParam)
      requires adapter.Valid() && 0.0 <= settings.verifyPercent <= 1.0
      ensures Valid() && fresh(primitives)
      ensures primitives.adapter == adapter && primitives.settings == settings && primitives.pending == []
      ensures param.Parameterised? ==> t == Ok(SchemaInstance([], param.schemaType))
      ensures param.Unparameterised? ==> t == Err(AttributeError("_t"))
    {
      primitives := new P.Primitives(adapter, settings);
      t := if param.Parameterised? then Ok(SchemaInstance([], param.schemaType)) else Err(AttributeError("_t"));
    }

    /** `BoundQuery.__call__`: build the tags, then query the primitives
        under the call's key with the default durations. The key, which the
        source formats as `name:args:kwargs`, is given as an opaque string.
        A spec that cannot be filled fails the call before anything is read
        or stored. */
    method Call(desc: Descriptor, args: seq<string>, cacheKey: string, fetched: Result<V>, now: int)
      returns (r: Result<V>)
      requires Valid()
      modifies primitives, primitives.adapter
      ensures Valid()
      ensures CallTags(desc.specs, args).Err? ==>
        (r == Err(CallTags(desc.specs, args).error) && primitives.adapter.State() == old(primitives.adapter.State()) &&
         primitives.pending == old(primitives.pending))
      ensures CallTags(desc.specs, args).Ok? ==>
        var tags := CallTags(desc.specs, args).value;
        var step := Engine.QueryStep(old(primitives.adapter.State()), primitives.adapter.maxItems,
                                     P.FullKey(primitives.settings.prefix, cacheKey), tags, fetched,
                                     P.ResolveLifetime(primitives.settings, None, None), now);
        (r == step.result && primitives.adapter.State() == step.state &&
         primitives.pending == old(primitives.pending) +
           (if step.refresh then [P.Refresh(P.FullKey(primitives.settings.prefix, cacheKey), tags, None, None)] else []))
    {
      var tags := CallTags(desc.specs, args);
      if tags.Err? {
        return Err(tags.error);
      }
      r := primitives.Query(cacheKey, tags.value, None, None, fetched, now);
    }

    /** `invalidate`: collect the paths in argument order, refusing the
        whole call at the first argument that is not a tag value, then
        invalidate them all at `now`. */
    method Invalidate(args: seq<Invalidatable>, now: int) returns (r: Result<()>)
      requires Valid()
      modifies primitives.adapter
      ensures Valid()
      ensures r.Ok? <==> forall i | 0 <= i < |args| :: IsTagValue(args[i])
      ensures r.Err? ==> r == Err(NotATag) && primitives.adapter.State() == old(primitives.adapter.State())
      ensures r.Ok? ==>
        primitives.adapter.State() ==
          MA.AdapterState(old(primitives.adapter.Contents()), Engine.StampAll(old(primitives.adapter.invalidations), Paths(args), now))
    {
      var paths: seq<Tag> := [];
      for i := 0 to |args|
        invariant forall j | 0 <= j < i :: IsTagValue(args[j])
        invariant paths == Paths(args[..i])
      {
        if args[i].OtherArg? {
          return Err(NotATag);
        }
        assert args[..i + 1][..i] == args[..i];
        paths := paths + [PathOf(args[i])];
      }
      assert args[..|args|] == args;
      primitives.Invalidate(paths, false, now);
      r := Ok(());
    }
  }
}

/** The runtime side of tag schemas: tag specs with wildcards, filled by
    `build_path`; the descriptors a schema class installs, which give specs
    on class access and nodes or typed tags on instance access; and the
    nodes, whose call appends an id. Which type a field's children have is
    read from the class annotations in the source; here it is given as
    data (`Hints`). */
module Schema {
  import opened Types

  /** For each schema class, its fields annotated as wild with a children
      class, and that class. */
  type Hints = map<string, map<string, string>>

  /** A tag path pattern: its segments (`"*"` for a wildcard), the number
      of wildcards added by calls, and the class of its children if
      known. */
  datatype TagSpec = TagSpec(segments: seq<string>, wildCount: int, children: Option<string>)

  /** The number of `"*"` segments. */
  function CountStars(segs: seq<string>): nat
  {
    if segs == [] then 0
    else CountStars(segs[..|segs| - 1]) + (if segs[|segs| - 1] == "*" then 1 else 0)
  }

  /** The spec's count agrees with its segments. */
  predicate Consistent(spec: TagSpec)
  {
    spec.wildCount == CountStars(spec.segments)
  }

  /** Names starting with `_` are refused as attributes. */
  predicate Private(name: string)
  {
    |name| > 0 && name[0] == '_'
  }

  /** `TagSpec.__call__`: append a wildcard. */
  function Call(spec: TagSpec): TagSpec
  {
    TagSpec(spec.segments + ["*"], spec.wildCount + 1, spec.children)
  }

  /** The children class of field `name` under a known children class. */
  function ChildHint(children: Option<string>, name: string, hints: Hints): Option<string>
  {
    if children.Some? && children.value in hints && name in hints[children.value] then Some(hints[children.value][name])
    else None
  }

  /** `TagSpec.__getattr__`: append a named segment. */
  function GetAttr(spec: TagSpec, name: string, hints: Hints): Result<TagSpec>
  {
    if Private(name) then Err(AttributeError(name))
    else Ok(TagSpec(spec.segments + [name], spec.wildCount, ChildHint(spec.children, name, hints)))
  }

  lemma CountStarsSnoc(segs: seq<string>, s: string)
    ensures CountStars(segs + [s]) == CountStars(segs) + (if s == "*" then 1 else 0)
  {
    assert (segs + [s])[..|segs|] == segs;
  }

  /** A call adds exactly one wildcard and keeps the children class; an
      attribute keeps the count, and keeps the spec consistent unless its
      name is itself `"*"`. A private name is refused. */
  lemma CallAndAttrKeepCount(spec: TagSpec, name: string, hints: Hints)
    ensures Call(spec).wildCount == spec.wildCount + 1 && Call(spec).children == spec.children
    ensures Consistent(spec) ==> Consistent(Call(spec))
    ensures Private(name) <==> GetAttr(spec, name, hints) == Err(AttributeError(name))
    ensures GetAttr(spec, name, hints).Ok? ==>
      GetAttr(spec, name, hints).value.segments == spec.segments + [name] &&
      GetAttr(spec, name, hints).value.wildCount == spec.wildCount
    ensures Consistent(spec) && GetAttr(spec, name, hints).Ok? ==>
      (Consistent(GetAttr(spec, name, hints).value) <==> name != "*")
  {
    CountStarsSnoc(spec.segments, "*");
    CountStarsSnoc(spec.segments, name);
  }

  // ---------------------------------------------------------------------------
  // build_path
  // ---------------------------------------------------------------------------

  /** The path a spec's segments denote for `args`: the i-th wildcard is
      the i-th argument; running out of arguments is an IndexError. */
  function FillPath(segs: seq<string>, args: seq<string>): Result<seq<string>>
  {
    if segs == [] then Ok([])
    else
      var init := segs[..|segs| - 1];
      var last := segs[|segs| - 1];
      match FillPath(init, args)
      case Err(e) => Err(e)
      case Ok(prefix) =>
        if last != "*" then Ok(prefix + [last])
        else if CountStars(init) < |args| then Ok(prefix + [args[CountStars(init)]])
        else Err(IndexError)
  }

  /** `build_path` succeeds exactly when there are enough arguments; its
      path is as long as the segments, copies every named segment, and
      puts the i-th argument at the i-th wildcard. The only error is
      IndexError. */
  lemma {:induction false} FillPathContract(segs: seq<string>, args: seq<string>)
    ensures FillPath(segs, args).Ok? <==> CountStars(segs) <= |args|
    ensures FillPath(segs, args).Err? ==> FillPath(segs, args) == Err(IndexError)
    ensures FillPath(segs, args).Ok? ==>
      |FillPath(segs, args).value| == |segs| &&
      forall i | 0 <= i < |segs| ::
        (if segs[i] == "*" then CountStars(segs[..i]) < |args| && FillPath(segs, args).value[i] == args[CountStars(segs[..i])]
         else FillPath(segs, args).value[i] == segs[i])
  {
    if segs != [] {
      var init := segs[..|segs| - 1];
      FillPathContract(init, args);
      if FillPath(segs, args).Ok? {
        var path := FillPath(segs, args).value;
        var prefix := FillPath(init, args).value;
        forall i | 0 <= i < |segs|
          ensures if segs[i] == "*" then CountStars(segs[..i]) < |args| && path[i] == args[CountStars(segs[..i])]
                  else path[i] == segs[i]
        {
          if i < |segs| - 1 {
            assert segs[..i] == init[..i];
            assert path[i] == prefix[i];
          }
        }
      }
    }
  }

  /** Once a prefix of the segments runs out of arguments, so do the
      segments. */
  lemma {:induction false} FillPathErrorSticks(segs: seq<string>, k: nat, args: seq<string>)
    requires k <= |segs| && FillPath(segs[..k], args).Err?
    ensures FillPath(segs, args) == FillPath(segs[..k], args)
  {
    if k < |segs| {
      var init := segs[..|segs| - 1];
      assert init[..k] == segs[..k];
      FillPathErrorSticks(init, k, args);
    } else {
      assert segs[..k] == segs;
    }
  }

  /** `TagSpec.build_path`: the loop that appends segments and moves the
      argument index. */
  method BuildPath(spec: TagSpec, args: seq<string>) returns (r: Result<seq<string>>)
    ensures r == FillPath(spec.segments, args)
  {
    var segs := spec.segments;
    var result: seq<string> := [];
    var argIdx := 0;
    for i := 0 to |segs|
      invariant FillPath(segs[..i], args) == Ok(result)
      invariant argIdx == CountStars(segs[..i])
    {
      var seg := segs[i];
      assert segs[..i + 1][..i] == segs[..i];
      if seg == "*" {
        if argIdx >= |args| {
          FillPathErrorSticks(segs, i + 1, args);
          return Err(IndexError);
        }
        result := result + [args[argIdx]];
        argIdx := argIdx + 1;
      } else {
        result := result + [seg];
      }
    }
    assert segs[..|segs|] == segs;
    r := Ok(result);
  }

  // ---------------------------------------------------------------------------
  // Descriptors, nodes and schema instances
  // ---------------------------------------------------------------------------

  /** A schema field as its class declares it. */
  datatype Field = WildField(name: string, children: Option<string>) | StaticField(name: string)

  /** A schema instance: its path and its class (None for the bare base
      class). */
  datatype SchemaInstance = SchemaInstance(path: seq<string>, schemaType: Option<string>)

  /** A node reached through a wild field of an instance. */
  datatype WildNode = WildNode(path: seq<string>, children: Option<string>)

  /** What class access gives: a wild spec or a static spec, each wrapping
      a tag spec. */
  datatype ClassView = WildSpecView(spec: TagSpec) | StaticSpecView(spec: TagSpec)

  /** What instance access gives: a node or a typed tag. */
  datatype InstanceView = NodeView(node: WildNode) | TypedView(tag: TypedTag)

  /** The descriptors' `__get__` on the class. */
  function ClassAccess(f: Field): ClassView
  {
    match f
    case WildField(name, children) => WildSpecView(TagSpec([name], 0, children))
    case StaticField(name) => StaticSpecView(TagSpec([name], 0, None))
  }

  /** The descriptors' `__get__` on an instance. */
  function InstanceAccess(f: Field, obj: SchemaInstance): InstanceView
  {
    match f
    case WildField(name, children) => NodeView(WildNode(obj.path + [name], children))
    case StaticField(name) => TypedView(TypedTag(obj.path + [name]))
  }

  /** `WildNode.__call__`: append the id, giving an instance of the
      children class. */
  function CallNode(node: WildNode, id: string): SchemaInstance
  {
    SchemaInstance(node.path + [id], node.children)
  }

  /** `wild_count` of what class access gives; a static spec always
      reports 0. */
  function ViewWildCount(v: ClassView): int
  {
    match v
    case WildSpecView(spec) => spec.wildCount
    case StaticSpecView(_) => 0
  }

  /** Class access names one segment with no wildcard; instance access
      extends the instance's path by the field's name (a typed tag for a
      static field), and calling the node appends the id. */
  lemma AccessShapes(f: Field, obj: SchemaInstance, id: string)
    ensures ClassAccess(f).spec.segments == [f.name] && ViewWildCount(ClassAccess(f)) == 0
    ensures Consistent(ClassAccess(f).spec) <==> f.name != "*"
    ensures f.StaticField? ==> ClassAccess(f).StaticSpecView? && InstanceAccess(f, obj) == TypedView(TypedTag(obj.path + [f.name]))
    ensures f.WildField? ==> (ClassAccess(f).spec.children == f.children &&
      InstanceAccess(f, obj) == NodeView(WildNode(obj.path + [f.name], f.children)) &&
      CallNode(InstanceAccess(f, obj).node, id).path == obj.path + [f.name, id])
  {
    CountStarsSnoc([], f.name);
    assert [] + [f.name] == [f.name];
  }

  /** The spec `F0().F1()...Fk()` spelled by class access to the wild field
      `fields[0]`, then calls and attribute accesses for the others. The
      first field must be wild: the static spec has no `__call__`. */
  function ClassChain(fields: seq<Field>, hints: Hints): Result<TagSpec>
    requires |fields| >= 1 && fields[0].WildField?
  {
    if |fields| == 1 then Ok(Call(ClassAccess(fields[0]).spec))
    else
      match ClassChain(fields[..|fields| - 1], hints)
      case Err(e) => Err(e)
      case Ok(spec) =>
        match GetAttr(spec, fields[|fields| - 1].name, hints)
        case Err(e) => Err(e)
        case Ok(named) => Ok(Call(named))
  }

  /** The instance `root.F0(id0).F1(id1)...Fk(idk)`. */
  function InstanceChain(root: SchemaInstance, fields: seq<Field>, ids: seq<string>): SchemaInstance
    requires |ids| == |fields| && forall i | 0 <= i < |fields| :: fields[i].WildField?
  {
    if fields == [] then root
    else
      var prev := InstanceChain(root, fields[..|fields| - 1], ids[..|ids| - 1]);
      CallNode(InstanceAccess(fields[|fields| - 1], prev).node, ids[|ids| - 1])
  }

  /** Field names are identifiers: public ones, never `"*"`. */
  predicate Identifier(name: string)
  {
    !Private(name) && name != "*"
  }

  /** Arguments beyond those the wildcards use change nothing. */
  lemma {:induction false} FillPathExtraArgs(segs: seq<string>, args: seq<string>, extra: seq<string>)
    requires CountStars(segs) <= |args|
    ensures FillPath(segs, args + extra) == FillPath(segs, args)
  {
    if segs != [] {
      FillPathExtraArgs(segs[..|segs| - 1], args, extra);
    }
  }

  /** Appending a named segment and then a wildcard appends the name and
      the next unused argument. */
  lemma FillPathNamedStar(segs: seq<string>, name: string, args: seq<string>)
    requires name != "*" && FillPath(segs, args).Ok? && CountStars(segs) < |args|
    ensures CountStars(segs + [name, "*"]) == CountStars(segs) + 1
    ensures FillPath(segs + [name, "*"], args) == Ok(FillPath(segs, args).value + [name, args[CountStars(segs)]])
  {
    var named := segs + [name];
    var prefix := FillPath(segs, args).value;
    assert (segs + [name, "*"])[..|segs| + 1] == named;
    assert named[..|segs|] == segs;
    CountStarsSnoc(segs, name);
    assert FillPath(named, args) == Ok(prefix + [name]);
    CountStarsSnoc(named, "*");
    assert prefix + [name] + [args[CountStars(segs)]] == prefix + [name, args[CountStars(segs)]];
  }

  /** The segments of a chain of wild fields: each name followed by a
      wildcard. */
  function ChainSegments(fields: seq<Field>): seq<string>
  {
    if fields == [] then [] else ChainSegments(fields[..|fields| - 1]) + [fields[|fields| - 1].name, "*"]
  }

  /** Each field name followed by its id. */
  function Interleave(fields: seq<Field>, ids: seq<string>): seq<string>
    requires |ids| == |fields|
  {
    if fields == [] then [] else Interleave(fields[..|fields| - 1], ids[..|ids| - 1]) + [fields[|fields| - 1].name, ids[|ids| - 1]]
  }

  /** Class access, calls and attribute accesses spell the chain's
      segments, with one wildcard counted per field. */
  lemma {:induction false} ClassChainSegments(fields: seq<Field>, hints: Hints)
    requires |fields| >= 1
    requires forall i | 0 <= i < |fields| :: fields[i].WildField? && Identifier(fields[i].name)
    ensures ClassChain(fields, hints).Ok?
    ensures ClassChain(fields, hints).value.segments == ChainSegments(fields)
    ensures ClassChain(fields, hints).value.wildCount == |fields|
  {
    var initF := fields[..|fields| - 1];
    if |fields| == 1 {
      assert initF == [];
      assert ChainSegments(fields) == [] + [fields[0].name, "*"];
    } else {
      ClassChainSegments(initF, hints);
    }
  }

  /** The chain's segments hold one wildcard per field. */
  lemma {:induction false} ChainSegmentsStars(fields: seq<Field>)
    requires forall i | 0 <= i < |fields| :: Identifier(fields[i].name)
    ensures CountStars(ChainSegments(fields)) == |fields|
  {
    if fields != [] {
      var initF := fields[..|fields| - 1];
      ChainSegmentsStars(initF);
      var segs := ChainSegments(initF);
      var name := fields[|fields| - 1].name;
      CountStarsSnoc(segs, name);
      CountStarsSnoc(segs + [name], "*");
      assert segs + [name] + ["*"] == segs + [name, "*"];
    }
  }

  /** An instance chain adds each field's name and its id to the root's
      path. */
  lemma {:induction false} InstanceChainPath(root: SchemaInstance, fields: seq<Field>, ids: seq<string>)
    requires |ids| == |fields| && forall i | 0 <= i < |fields| :: fields[i].WildField?
    ensures InstanceChain(root, fields, ids).path == root.path + Interleave(fields, ids)
  {
    if fields != [] {
      InstanceChainPath(root, fields[..|fields| - 1], ids[..|ids| - 1]);
    }
  }

  /** Filling the chain's segments with the ids gives the interleaving. */
  lemma {:induction false} FillChainSegments(fields: seq<Field>, ids: seq<string>)
    requires |ids| == |fields| && forall i | 0 <= i < |fields| :: Identifier(fields[i].name)
    ensures FillPath(ChainSegments(fields), ids) == Ok(Interleave(fields, ids))
  {
    if fields != [] {
      var n := |fields|;
      var initF := fields[..n - 1];
      var initI := ids[..n - 1];
      FillChainSegments(initF, initI);
      ChainSegmentsStars(initF);
      assert ids == initI + [ids[n - 1]];
      FillPathExtraArgs(ChainSegments(initF), initI, [ids[n - 1]]);
      FillPathNamedStar(ChainSegments(initF), fields[n - 1].name, ids);
    }
  }

  /** What `@cached` receives and what `invalidate` receives agree: the
      spec spelled by class access, filled with the ids, is exactly the
      path the matching instance chain adds to its root, and it needs one
      argument per field. */
  lemma ClassChainFillsInstancePath(fields: seq<Field>, ids: seq<string>, hints: Hints, root: SchemaInstance)
    requires |fields| >= 1 && |ids| == |fields|
    requires forall i | 0 <= i < |fields| :: fields[i].WildField? && Identifier(fields[i].name)
    ensures ClassChain(fields, hints).Ok?
    ensures Consistent(ClassChain(fields, hints).value)
    ensures ClassChain(fields, hints).value.wildCount == |fields|
    ensures InstanceChain(root, fields, ids).path == root.path + Interleave(fields, ids)
    ensures FillPath(ClassChain(fields, hints).value.segments, ids) == Ok(Interleave(fields, ids))
  {
    ClassChainSegments(fields, hints);
    ChainSegmentsStars(fields);
    InstanceChainPath(root, fields, ids);
    FillChainSegments(fields, ids);
  }

  /** `posts().comments()` is `("posts", "*", "comments", "*")` with two
      wildcards, and with the ids "p1" and "c1" it names the path
      `("posts", "p1", "comments", "c1")`. */
  lemma PostsCommentsExample(hints: Hints)
    ensures ClassChain([WildField("posts", None), WildField("comments", None)], hints) ==
      Ok(TagSpec(["posts", "*", "comments", "*"], 2, None))
    ensures FillPath(["posts", "*", "comments", "*"], ["p1", "c1"]) == Ok(["posts", "p1", "comments", "c1"])
  {
    var fields := [WildField("posts", None), WildField("comments", None)];
    assert fields[..1] == [WildField("posts", None)];
    assert ["posts"] + ["*"] == ["posts", "*"];
    assert ["posts", "*"] + ["comments"] + ["*"] == ["posts", "*", "comments", "*"];
    assert ChildHint(None, "comments", hints) == None;
    ClassChainFillsInstancePath(fields, ["p1", "c1"], hints, SchemaInstance([], None));
    var inst := InstanceChain(SchemaInstance([], None), fields, ["p1", "c1"]);
    assert fields[..1][..0] == [] && ["p1", "c1"][..1] == ["p1"] && ["p1"][..0] == [];
    assert inst.path == ["posts", "p1", "comments", "c1"];
    assert inst.path[0..] == inst.path;
  }
}

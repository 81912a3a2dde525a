/**
 * Reading the YAML tree of `anvil.yaml` into configuration records
 * (config.c, config.h).  Each `dset_*` looks up keys of one node with
 * `map_get_node` and sets the fields of one record; a string field is the
 * node's string when the key holds a string and NULL otherwise.  Records
 * whose fields the readers assign in place are classes; a record that only
 * ever lives inside an array of structs is a value.  NULL is `None`.
 */
module Config {
  import opened Wrappers
  import opened Bytes
  import opened YamlTypes
  import Parser
  import Yaml
  import HashMaps
  import Vectors

  type Str = seq<byte>

  // ----- the keys the readers look up -----

  const ValidateStrKey: Str := "validate_str"
  const CachePolicyKey: Str := "cache_policy"
  const CommandsKey: Str := "commands"
  const NameKey: Str := "name"
  const TypeKey: Str := "type"
  const RepoKey: Str := "repo"
  const PathKey: Str := "path"
  const LibsKey: Str := "libs"
  const TargetKey: Str := "target"
  const MainKey: Str := "main"
  const CompilerKey: Str := "compiler"
  const CstdKey: Str := "cstd"
  const MacrosKey: Str := "macros"
  const ArgumentsKey: Str := "arguments"
  const DepsKey: Str := "deps"
  const PackageKey: Str := "package"
  const VersionKey: Str := "version"
  const AuthorKey: Str := "author"
  const DescriptionKey: Str := "description"
  const WorkspaceKey: Str := "workspace"
  const TargetsKey: Str := "targets"
  const BuildKey: Str := "build"
  const ProfilesKey: Str := "profiles"

  /** `sizeof(char*)`, the element size of a profile's flag vector. */
  const CharPtrSize: nat := 8

  // ----- nodes of the tree -----

  /** Every map value and sequence item names a node of the heap. */
  ghost predicate Closed(nodes: seq<Node>)
  {
    forall i :: 0 <= i < |nodes| ==> Parser.ValueBelow(nodes[i].value, |nodes|)
  }

  /** A heap the parser built, whose nodes only refer to earlier ones, is closed. */
  lemma HeapValidIsClosed(nodes: seq<Node>)
    requires Parser.HeapValid(nodes)
    ensures Closed(nodes)
  {
    forall i | 0 <= i < |nodes|
      ensures Parser.ValueBelow(nodes[i].value, |nodes|)
    {
      assert Parser.ValueBelow(nodes[i].value, i);
    }
  }

  /** A `Node*` that is NULL or points into the heap. */
  predicate InHeap(nodes: seq<Node>, n: Option<NodeId>)
  {
    n.Some? ==> n.value < |nodes|
  }

  /** `n && n->kind == NODE_MAP`. */
  predicate IsMap(nodes: seq<Node>, n: Option<NodeId>)
  {
    n.Some? && n.value < |nodes| && nodes[n.value].value.MapValue?
  }

  /** `n && n->kind == NODE_SEQUENCE`. */
  predicate IsSequence(nodes: seq<Node>, n: Option<NodeId>)
  {
    n.Some? && n.value < |nodes| && nodes[n.value].value.SequenceValue?
  }

  /** Node ids that all name nodes of the heap. */
  predicate AllInHeap(nodes: seq<Node>, ids: seq<NodeId>)
  {
    forall j :: 0 <= j < |ids| ==> ids[j] < |nodes|
  }

  /** Map entries whose values all name nodes of the heap. */
  predicate EntriesInHeap(nodes: seq<Node>, es: seq<MapEntry>)
  {
    forall j :: 0 <= j < |es| ==> es[j].val < |nodes|
  }

  /** The `size` entries of a map node. */
  function EntriesOf(nodes: seq<Node>, n: Option<NodeId>): (r: seq<MapEntry>)
    requires Closed(nodes) && IsMap(nodes, n)
    ensures EntriesInHeap(nodes, r)
  {
    assert Parser.ValueBelow(nodes[n.value].value, |nodes|);
    nodes[n.value].value.m.entries
  }

  /** The `size` items of a sequence node. */
  function ItemsOf(nodes: seq<Node>, n: Option<NodeId>): (r: seq<NodeId>)
    requires Closed(nodes) && IsSequence(nodes, n)
    ensures AllInHeap(nodes, r)
  {
    assert Parser.ValueBelow(nodes[n.value].value, |nodes|);
    nodes[n.value].value.s.items
  }

  /** `map_get_node(node, key)`; in a closed heap its answer is NULL or a node of the heap. */
  function Child(nodes: seq<Node>, node: Option<NodeId>, key: Str): (r: Option<NodeId>)
    requires Closed(nodes) && InHeap(nodes, node)
    ensures InHeap(nodes, r) && r == Yaml.MapGetNodeF(nodes, node, key)
  {
    var r := Yaml.MapGetNodeF(nodes, node, key);
    assert r.Some? ==> r.value < |nodes| by {
      if r.Some? {
        assert Parser.ValueBelow(nodes[node.value].value, |nodes|);
      }
    }
    r
  }

  /** `(n && n->kind == NODE_STRING) ? n->string : nullptr`. */
  function StringOf(nodes: seq<Node>, n: Option<NodeId>): Option<Str>
    requires InHeap(nodes, n)
  {
    if n.Some? && nodes[n.value].value.StringValue? then Some(nodes[n.value].value.str) else None
  }

  /** The string field a reader sets from `key`. */
  function Field(nodes: seq<Node>, node: Option<NodeId>, key: Str): Option<Str>
    requires Closed(nodes) && InHeap(nodes, node)
  {
    StringOf(nodes, Child(nodes, node, key))
  }

  /**
   * A string field is set exactly when the first entry named `key` holds a
   * string, and is then that string; with no entry named `key` it is NULL.
   */
  lemma FieldFirstMatch(nodes: seq<Node>, id: NodeId, key: Str)
    requires Closed(nodes) && IsMap(nodes, Some(id))
    ensures var es := EntriesOf(nodes, Some(id));
            ((forall k :: 0 <= k < |es| ==> es[k].key != key) ==> Field(nodes, Some(id), key).None?) &&
            forall k :: 0 <= k < |es| && es[k].key == key && (forall j :: 0 <= j < k ==> es[j].key != key) ==>
              Field(nodes, Some(id), key) == StringOf(nodes, Some(es[k].val))
  {
    Yaml.MapGetNodeFirst(nodes, id, key);
    assert Child(nodes, Some(id), key) == Yaml.MapGetNodeF(nodes, Some(id), key);
    assert EntriesOf(nodes, Some(id)) == nodes[id].value.m.entries;
  }

  /** No field of a NULL node or of a node that is not a map is set. */
  lemma FieldOfNonMap(nodes: seq<Node>, node: Option<NodeId>, key: Str)
    requires Closed(nodes) && InHeap(nodes, node) && !IsMap(nodes, node)
    ensures Field(nodes, node, key).None?
  {
  }

  // ----- lists of strings -----

  /** The item-by-item loops of `commands` and `target`: each item's string, or NULL. */
  function StringsOrNull(nodes: seq<Node>, items: seq<NodeId>): (r: seq<Option<Str>>)
    requires AllInHeap(nodes, items)
    ensures |r| == |items|
    decreases |items|
  {
    if items == [] then []
    else StringsOrNull(nodes, items[..|items| - 1]) + [StringOf(nodes, Some(items[|items| - 1]))]
  }

  /** Entry `j` of the list is item `j`'s string, or NULL when item `j` is not a string. */
  lemma {:induction false} StringsOrNullAt(nodes: seq<Node>, items: seq<NodeId>)
    requires AllInHeap(nodes, items)
    ensures forall j :: 0 <= j < |items| ==> StringsOrNull(nodes, items)[j] == StringOf(nodes, Some(items[j]))
    decreases |items|
  {
    if items != [] {
      var n := |items| - 1;
      StringsOrNullAt(nodes, items[..n]);
      assert forall j :: 0 <= j < n ==> items[..n][j] == items[j];
    }
  }

  /** The flag loop of a profile: the strings among the items, in order; other items are skipped. */
  function StringsOnly(nodes: seq<Node>, items: seq<NodeId>): (r: seq<Str>)
    requires AllInHeap(nodes, items)
    ensures |r| <= |items|
    decreases |items|
  {
    if items == [] then []
    else
      var n := |items| - 1;
      StringsOnly(nodes, items[..n]) +
      (if nodes[items[n]].value.StringValue? then [nodes[items[n]].value.str] else [])
  }

  /** A flag is one of the string items, and every string item is a flag. */
  lemma {:induction false} StringsOnlyMembers(nodes: seq<Node>, items: seq<NodeId>, x: Str)
    requires AllInHeap(nodes, items)
    ensures x in StringsOnly(nodes, items) <==> exists j :: 0 <= j < |items| && nodes[items[j]].value == StringValue(x)
  {
    if x in StringsOnly(nodes, items) {
      StringsOnlyWitness(nodes, items, x);
    }
    if exists j :: 0 <= j < |items| && nodes[items[j]].value == StringValue(x) {
      var j :| 0 <= j < |items| && nodes[items[j]].value == StringValue(x);
      StringsOnlyPresent(nodes, items, x, j);
    }
  }

  /** A flag comes from a string item. */
  lemma {:induction false} StringsOnlyWitness(nodes: seq<Node>, items: seq<NodeId>, x: Str)
    requires AllInHeap(nodes, items) && x in StringsOnly(nodes, items)
    ensures exists j :: 0 <= j < |items| && nodes[items[j]].value == StringValue(x)
    decreases |items|
  {
    var n := |items| - 1;
    var head := items[..n];
    if nodes[items[n]].value != StringValue(x) {
      assert x in StringsOnly(nodes, head);
      StringsOnlyWitness(nodes, head, x);
      var j :| 0 <= j < |head| && nodes[head[j]].value == StringValue(x);
      assert items[j] == head[j];
    }
  }

  /** A string item is a flag. */
  lemma {:induction false} StringsOnlyPresent(nodes: seq<Node>, items: seq<NodeId>, x: Str, j: nat)
    requires AllInHeap(nodes, items) && j < |items| && nodes[items[j]].value == StringValue(x)
    ensures x in StringsOnly(nodes, items)
    decreases |items|
  {
    var n := |items| - 1;
    var head := items[..n];
    if j < n {
      assert head[j] == items[j];
      StringsOnlyPresent(nodes, head, x, j);
    }
  }

  /** Without a non-string item nothing is skipped: the flags are the items' strings, one each. */
  lemma {:induction false} StringsOnlyAllStrings(nodes: seq<Node>, items: seq<NodeId>)
    requires AllInHeap(nodes, items)
    requires forall j :: 0 <= j < |items| ==> nodes[items[j]].value.StringValue?
    ensures |StringsOnly(nodes, items)| == |items|
    ensures forall j :: 0 <= j < |items| ==> StringsOnly(nodes, items)[j] == nodes[items[j]].value.str
    decreases |items|
  {
    if items != [] {
      var n := |items| - 1;
      StringsOnlyAllStrings(nodes, items[..n]);
      assert forall j :: 0 <= j < n ==> items[..n][j] == items[j];
    }
  }

  /** The loop of `commands` and `target`: a buffer of each item's string or NULL. */
  method ReadStrings(h: Yaml.NodeHeap, items: seq<NodeId>) returns (r: seq<Option<Str>>)
    requires AllInHeap(h.nodes, items)
    ensures r == StringsOrNull(h.nodes, items)
  {
    var buf := new Option<Str>[|items|];
    for i := 0 to |items|
      invariant buf[..i] == StringsOrNull(h.nodes, items[..i])
    {
      buf[i] := StringOf(h.nodes, Some(items[i]));
      assert items[..i + 1][..i] == items[..i];
    }
    assert items[..|items|] == items;
    r := buf[..];
  }

  /** The flag loop of `dset_profile_config`: a new vector, with each string item pushed in turn. */
  method ReadFlags(h: Yaml.NodeHeap, items: seq<NodeId>) returns (flags: Vectors.Vector<Str>)
    requires AllInHeap(h.nodes, items)
    ensures fresh(flags) && flags.Valid() && flags.Elements() == StringsOnly(h.nodes, items)
  {
    flags := new Vectors.Vector<Str>.Init(CharPtrSize);
    for i := 0 to |items|
      invariant fresh(flags) && flags.Valid() && (flags.val == null || fresh(flags.val))
      invariant flags.Elements() == StringsOnly(h.nodes, items[..i])
    {
      var vi := items[i];
      assert items[..i + 1][..i] == items[..i];
      if h.nodes[vi].value.StringValue? {
        flags.Push(h.nodes[vi].value.str);
      }
    }
    assert items[..|items|] == items;
  }

  // ----- ArgumentConfig -----

  /** The fields of `ArgumentConfig`. */
  datatype ArgumentValue = ArgumentValue(
    validateStr: Option<Str>, cachePolicy: Option<Str>,
    commands: Option<seq<Option<Str>>>, commandsCount: nat)

  /** What `dset_argument_config` sets from a map node. */
  function ArgumentOf(nodes: seq<Node>, node: Option<NodeId>): ArgumentValue
    requires Closed(nodes) && IsMap(nodes, node)
  {
    var c := Child(nodes, node, CommandsKey);
    ArgumentValue(
      Field(nodes, node, ValidateStrKey), Field(nodes, node, CachePolicyKey),
      if IsSequence(nodes, c) then Some(StringsOrNull(nodes, ItemsOf(nodes, c))) else None,
      if IsSequence(nodes, c) then |ItemsOf(nodes, c)| else 0)
  }

  /**
   * `commands` is set exactly when the key holds a sequence; then
   * `commands_count` is the sequence's size and command `j` is item `j`'s
   * string or NULL; otherwise the count is zero.
   */
  lemma ArgumentCommands(nodes: seq<Node>, node: Option<NodeId>)
    requires Closed(nodes) && IsMap(nodes, node)
    ensures var a := ArgumentOf(nodes, node);
            var c := Child(nodes, node, CommandsKey);
            (a.commands.Some? <==> IsSequence(nodes, c)) &&
            (a.commands.None? ==> a.commandsCount == 0) &&
            (a.commands.Some? ==>
               a.commandsCount == |a.commands.value| == |ItemsOf(nodes, c)| &&
               forall j :: 0 <= j < a.commandsCount ==> a.commands.value[j] == StringOf(nodes, Some(ItemsOf(nodes, c)[j])))
  {
    var c := Child(nodes, node, CommandsKey);
    if IsSequence(nodes, c) {
      StringsOrNullAt(nodes, ItemsOf(nodes, c));
    }
  }

  /** `struct ArgumentConfig`, filled in place by `dset_argument_config`. */
  class ArgumentConfig {
    var validateStr: Option<Str>
    var cachePolicy: Option<Str>
    var commands: Option<seq<Option<Str>>>
    var commandsCount: nat

    /** `malloc(sizeof(ArgumentConfig))`: the fields hold whatever was in memory. */
    constructor Alloc()
    {
    }

    function Value(): ArgumentValue
      reads this
    {
      ArgumentValue(validateStr, cachePolicy, commands, commandsCount)
    }

    /** `dset_argument_config(acon, node)`: nothing for NULL or a non-map, else every field. */
    method Dset(h: Yaml.NodeHeap, node: Option<NodeId>)
      requires Closed(h.nodes) && InHeap(h.nodes, node)
      modifies this
      ensures Value() == if IsMap(h.nodes, node) then ArgumentOf(h.nodes, node) else old(Value())
    {
      if node.None? || !h.nodes[node.value].value.MapValue? {
        return;
      }
      var vstr := Yaml.MapGetNode(h, node, ValidateStrKey);
      validateStr := StringOf(h.nodes, vstr);
      var cpol := Yaml.MapGetNode(h, node, CachePolicyKey);
      cachePolicy := StringOf(h.nodes, cpol);
      var cmds := Yaml.MapGetNode(h, node, CommandsKey);
      if cmds.Some? && h.nodes[cmds.value].value.SequenceValue? {
        var items := ItemsOf(h.nodes, cmds);
        commandsCount := |items|;
        var buf := ReadStrings(h, items);
        commands := Some(buf);
      } else {
        commands := None;
        commandsCount := 0;
      }
    }
  }

  // ----- DependencyConfig -----

  /** `struct DependencyConfig`; `type` is `kind` here. */
  datatype DependencyValue = DependencyValue(name: Option<Str>, kind: Option<Str>, repo: Option<Str>, path: Option<Str>)

  /** A record with every field NULL. */
  const NullDependency := DependencyValue(None, None, None, None)

  /** `dset_dependency_config` on a record holding `prior`: `prior` for NULL or a non-map. */
  function DependencyOf(nodes: seq<Node>, prior: DependencyValue, node: Option<NodeId>): (r: DependencyValue)
    requires Closed(nodes) && InHeap(nodes, node)
    ensures !IsMap(nodes, node) ==> r == prior
  {
    if !IsMap(nodes, node) then prior
    else DependencyValue(Field(nodes, node, NameKey), Field(nodes, node, TypeKey),
                         Field(nodes, node, RepoKey), Field(nodes, node, PathKey))
  }

  /**
   * `dset_dependency_config(&deps[i], node)`: the struct in slot `i` of the
   * array becomes `DependencyOf` its old contents, and no other slot changes.
   */
  method DsetDependency(deps: array<DependencyValue>, i: nat, h: Yaml.NodeHeap, node: Option<NodeId>)
    requires i < deps.Length && Closed(h.nodes) && InHeap(h.nodes, node)
    modifies deps
    ensures deps[..] == old(deps[..])[i := DependencyOf(h.nodes, old(deps[i]), node)]
  {
    if node.None? || !h.nodes[node.value].value.MapValue? {
      return;
    }
    var name := Yaml.MapGetNode(h, node, NameKey);
    var kind := Yaml.MapGetNode(h, node, TypeKey);
    var repo := Yaml.MapGetNode(h, node, RepoKey);
    var path := Yaml.MapGetNode(h, node, PathKey);
    deps[i] := DependencyValue(StringOf(h.nodes, name), StringOf(h.nodes, kind),
                               StringOf(h.nodes, repo), StringOf(h.nodes, path));
  }

  // ----- WorkspaceConfig -----

  datatype WorkspaceValue = WorkspaceValue(libs: Option<Str>, target: Option<Str>)

  /** What `dset_workspace_config` sets from a map node. */
  function WorkspaceOf(nodes: seq<Node>, node: Option<NodeId>): WorkspaceValue
    requires Closed(nodes) && IsMap(nodes, node)
  {
    WorkspaceValue(Field(nodes, node, LibsKey), Field(nodes, node, TargetKey))
  }

  /** `struct WorkspaceConfig`, filled in place by `dset_workspace_config`. */
  class WorkspaceConfig {
    var libs: Option<Str>
    var target: Option<Str>

    /** `malloc(sizeof(WorkspaceConfig))`. */
    constructor Alloc()
    {
    }

    function Value(): WorkspaceValue
      reads this
    {
      WorkspaceValue(libs, target)
    }

    /** `dset_workspace_config(wconf, node)`: nothing for NULL or a non-map, else both fields. */
    method Dset(h: Yaml.NodeHeap, node: Option<NodeId>)
      requires Closed(h.nodes) && InHeap(h.nodes, node)
      modifies this
      ensures Value() == if IsMap(h.nodes, node) then WorkspaceOf(h.nodes, node) else old(Value())
    {
      if node.None? || !h.nodes[node.value].value.MapValue? {
        return;
      }
      var wlibs := Yaml.MapGetNode(h, node, LibsKey);
      if wlibs.Some? && h.nodes[wlibs.value].value.StringValue? {
        libs := Some(h.nodes[wlibs.value].value.str);
      } else {
        libs := None;
      }
      var wtarget := Yaml.MapGetNode(h, node, TargetKey);
      if wtarget.Some? && h.nodes[wtarget.value].value.StringValue? {
        target := Some(h.nodes[wtarget.value].value.str);
      } else {
        target := None;
      }
    }
  }

  // ----- TargetConfig and BuildTarget -----

  /** `struct TargetConfig`; `type` is `kind` here. */
  datatype TargetValue = TargetValue(
    name: Option<Str>, kind: Option<Str>, main: Option<Str>,
    target: Option<seq<Option<Str>>>, targetCount: nat)

  /**
   * One `TargetConfig` of `dset_target_config`.  `map_get_node` answers NULL
   * for an item that is not a map, so such an item gives a record of NULLs.
   */
  function TargetOf(nodes: seq<Node>, tnode: Option<NodeId>): TargetValue
    requires Closed(nodes) && InHeap(nodes, tnode)
  {
    var t := Child(nodes, tnode, TargetKey);
    TargetValue(
      Field(nodes, tnode, NameKey), Field(nodes, tnode, TypeKey), Field(nodes, tnode, MainKey),
      if IsSequence(nodes, t) then Some(StringsOrNull(nodes, ItemsOf(nodes, t))) else None,
      if IsSequence(nodes, t) then |ItemsOf(nodes, t)| else 0)
  }

  /**
   * `target` is set exactly when the key holds a sequence; then
   * `target_count` is its size and entry `j` is item `j`'s string or NULL.
   * An item that is not a map gives NULL fields and no target list.
   */
  lemma TargetList(nodes: seq<Node>, tnode: Option<NodeId>)
    requires Closed(nodes) && InHeap(nodes, tnode)
    ensures var r := TargetOf(nodes, tnode);
            var t := Child(nodes, tnode, TargetKey);
            (r.target.Some? <==> IsSequence(nodes, t)) &&
            (r.target.None? ==> r.targetCount == 0) &&
            (r.target.Some? ==>
               r.targetCount == |r.target.value| == |ItemsOf(nodes, t)| &&
               forall j :: 0 <= j < r.targetCount ==> r.target.value[j] == StringOf(nodes, Some(ItemsOf(nodes, t)[j])))
    ensures !IsMap(nodes, tnode) ==> TargetOf(nodes, tnode) == TargetValue(None, None, None, None, 0)
  {
    var t := Child(nodes, tnode, TargetKey);
    if IsSequence(nodes, t) {
      StringsOrNullAt(nodes, ItemsOf(nodes, t));
    }
  }

  /** The records of the items, in order. */
  function TargetsFrom(nodes: seq<Node>, items: seq<NodeId>): (r: seq<TargetValue>)
    requires Closed(nodes) && AllInHeap(nodes, items)
    ensures |r| == |items|
    decreases |items|
  {
    if items == [] then []
    else TargetsFrom(nodes, items[..|items| - 1]) + [TargetOf(nodes, Some(items[|items| - 1]))]
  }

  /** Record `j` is the one of item `j`. */
  lemma {:induction false} TargetsFromAt(nodes: seq<Node>, items: seq<NodeId>)
    requires Closed(nodes) && AllInHeap(nodes, items)
    ensures forall j :: 0 <= j < |items| ==> TargetsFrom(nodes, items)[j] == TargetOf(nodes, Some(items[j]))
    decreases |items|
  {
    if items != [] {
      var n := |items| - 1;
      TargetsFromAt(nodes, items[..n]);
      assert forall j :: 0 <= j < n ==> items[..n][j] == items[j];
    }
  }

  /** The fields of `BuildTarget`. */
  datatype TargetsValue = TargetsValue(count: nat, target: Option<seq<TargetValue>>)

  /** What `dset_target_config` sets from a sequence node. */
  function TargetsOf(nodes: seq<Node>, node: Option<NodeId>): TargetsValue
    requires Closed(nodes) && IsSequence(nodes, node)
  {
    var items := ItemsOf(nodes, node);
    if |items| == 0 then TargetsValue(0, None) else TargetsValue(|items|, Some(TargetsFrom(nodes, items)))
  }

  /**
   * `count` is the sequence's size; the array is NULL exactly for an empty
   * sequence, and otherwise holds one record per item, in order.
   */
  lemma TargetsCount(nodes: seq<Node>, node: Option<NodeId>)
    requires Closed(nodes) && IsSequence(nodes, node)
    ensures var r := TargetsOf(nodes, node);
            var items := ItemsOf(nodes, node);
            r.count == |items| && (r.target.None? <==> |items| == 0) &&
            (r.target.Some? ==>
               |r.target.value| == |items| &&
               forall j :: 0 <= j < |items| ==> r.target.value[j] == TargetOf(nodes, Some(items[j])))
  {
    TargetsFromAt(nodes, ItemsOf(nodes, node));
  }

  /** The body of the loop of `dset_target_config`: one new `TargetConfig` from `tnode`. */
  method ReadTarget(h: Yaml.NodeHeap, tnode: Option<NodeId>) returns (t: TargetValue)
    requires Closed(h.nodes) && InHeap(h.nodes, tnode)
    ensures t == TargetOf(h.nodes, tnode)
  {
    var name := Yaml.MapGetNode(h, tnode, NameKey);
    var kind := Yaml.MapGetNode(h, tnode, TypeKey);
    var main := Yaml.MapGetNode(h, tnode, MainKey);
    var tlist := Yaml.MapGetNode(h, tnode, TargetKey);
    if tlist.Some? && h.nodes[tlist.value].value.SequenceValue? {
      var items := ItemsOf(h.nodes, tlist);
      var buf := ReadStrings(h, items);
      t := TargetValue(StringOf(h.nodes, name), StringOf(h.nodes, kind), StringOf(h.nodes, main), Some(buf), |items|);
    } else {
      t := TargetValue(StringOf(h.nodes, name), StringOf(h.nodes, kind), StringOf(h.nodes, main), None, 0);
    }
  }

  /** `struct BuildTarget`, filled in place by `dset_target_config`. */
  class BuildTarget {
    var count: nat
    var target: Option<seq<TargetValue>>

    /** `malloc(sizeof(BuildTarget))`. */
    constructor Alloc()
    {
    }

    function Value(): TargetsValue
      reads this
    {
      TargetsValue(count, target)
    }

    /** `dset_target_config(tconf, node)`: nothing for NULL or a non-sequence, else both fields. */
    method Dset(h: Yaml.NodeHeap, node: Option<NodeId>)
      requires Closed(h.nodes) && InHeap(h.nodes, node)
      modifies this
      ensures Value() == if IsSequence(h.nodes, node) then TargetsOf(h.nodes, node) else old(Value())
    {
      if node.None? || !h.nodes[node.value].value.SequenceValue? {
        return;
      }
      var items := ItemsOf(h.nodes, node);
      if |items| == 0 {
        count := 0;
        target := None;
        assert Value() == TargetsOf(h.nodes, node);
        return;
      }
      count := |items|;
      var buf := new TargetValue[|items|];
      for i := 0 to |items|
        invariant count == |items|
        invariant buf[..i] == TargetsFrom(h.nodes, items[..i])
      {
        var tari := ReadTarget(h, Some(items[i]));
        buf[i] := tari;
        assert items[..i + 1][..i] == items[..i];
      }
      assert items[..|items|] == items;
      assert buf[..] == TargetsFrom(h.nodes, items);
      target := Some(buf[..]);
      assert count == |items|;
      assert Value() == TargetsValue(|items|, Some(TargetsFrom(h.nodes, items)));
    }
  }

  // ----- the tables of BuildConfig and of the profiles -----

  /** The (key, string) pairs `dset_build_config` puts into `macros`: string-valued entries, in order. */
  function MacroPairs(nodes: seq<Node>, es: seq<MapEntry>): (r: seq<(Str, Str)>)
    requires EntriesInHeap(nodes, es)
    ensures |r| <= |es|
    decreases |es|
  {
    if es == [] then []
    else
      var n := |es| - 1;
      MacroPairs(nodes, es[..n]) +
      (if nodes[es[n].val].value.StringValue? then [(es[n].key, nodes[es[n].val].value.str)] else [])
  }

  /** One more entry adds at most one pair: the `put` of that entry, if it holds a string. */
  lemma MacroPairsSnoc(nodes: seq<Node>, es: seq<MapEntry>, i: nat)
    requires EntriesInHeap(nodes, es) && i < |es|
    ensures MacroPairs(nodes, es[..i + 1]) ==
            MacroPairs(nodes, es[..i]) +
            (if nodes[es[i].val].value.StringValue? then [(es[i].key, nodes[es[i].val].value.str)] else [])
  {
    assert es[..i + 1][..i] == es[..i];
  }

  /** A pair is put for `(k, v)` exactly when some entry named `k` holds the string `v`. */
  lemma {:induction false} MacroPairsMembers(nodes: seq<Node>, es: seq<MapEntry>, k: Str, v: Str)
    requires EntriesInHeap(nodes, es)
    ensures (k, v) in MacroPairs(nodes, es) <==>
            exists j :: 0 <= j < |es| && es[j].key == k && nodes[es[j].val].value == StringValue(v)
  {
    if (k, v) in MacroPairs(nodes, es) {
      MacroPairWitness(nodes, es, k, v);
    }
    if exists j :: 0 <= j < |es| && es[j].key == k && nodes[es[j].val].value == StringValue(v) {
      var j :| 0 <= j < |es| && es[j].key == k && nodes[es[j].val].value == StringValue(v);
      MacroPairPresent(nodes, es, k, v, j);
    }
  }

  /** A pair that is put comes from an entry. */
  lemma {:induction false} MacroPairWitness(nodes: seq<Node>, es: seq<MapEntry>, k: Str, v: Str)
    requires EntriesInHeap(nodes, es)
    requires (k, v) in MacroPairs(nodes, es)
    ensures exists j :: 0 <= j < |es| && es[j].key == k && nodes[es[j].val].value == StringValue(v)
    decreases |es|
  {
    var n := |es| - 1;
    var head := es[..n];
    if !(es[n].key == k && nodes[es[n].val].value == StringValue(v)) {
      assert (k, v) in MacroPairs(nodes, head);
      MacroPairWitness(nodes, head, k, v);
      var j :| 0 <= j < |head| && head[j].key == k && nodes[head[j].val].value == StringValue(v);
      assert es[j] == head[j];
    }
  }

  /** An entry that qualifies has its pair put. */
  lemma {:induction false} MacroPairPresent(nodes: seq<Node>, es: seq<MapEntry>, k: Str, v: Str, j: nat)
    requires EntriesInHeap(nodes, es)
    requires j < |es| && es[j].key == k && nodes[es[j].val].value == StringValue(v)
    ensures (k, v) in MacroPairs(nodes, es)
    decreases |es|
  {
    var n := |es| - 1;
    var head := es[..n];
    if j < n {
      assert head[j] == es[j];
      MacroPairPresent(nodes, head, k, v, j);
    }
  }

  /** The (key, record) pairs put into `arguments`: one `dset_argument_config` per map-valued entry, in order. */
  function ArgumentPairs(nodes: seq<Node>, es: seq<MapEntry>): (r: seq<(Str, ArgumentValue)>)
    requires Closed(nodes) && EntriesInHeap(nodes, es)
    ensures |r| <= |es|
    decreases |es|
  {
    if es == [] then []
    else
      var n := |es| - 1;
      ArgumentPairs(nodes, es[..n]) +
      (if nodes[es[n].val].value.MapValue? then [(es[n].key, ArgumentOf(nodes, Some(es[n].val)))] else [])
  }

  /** One more entry adds at most one pair: the record of that entry, if it holds a map. */
  lemma ArgumentPairsSnoc(nodes: seq<Node>, es: seq<MapEntry>, i: nat)
    requires Closed(nodes) && EntriesInHeap(nodes, es) && i < |es|
    ensures ArgumentPairs(nodes, es[..i + 1]) ==
            ArgumentPairs(nodes, es[..i]) +
            (if nodes[es[i].val].value.MapValue? then [(es[i].key, ArgumentOf(nodes, Some(es[i].val)))] else [])
  {
    assert es[..i + 1][..i] == es[..i];
  }

  /** A record is put under `k` exactly for the map-valued entries named `k`, and is that map's record. */
  lemma {:induction false} ArgumentPairsMembers(nodes: seq<Node>, es: seq<MapEntry>, k: Str, a: ArgumentValue)
    requires Closed(nodes) && EntriesInHeap(nodes, es)
    ensures (k, a) in ArgumentPairs(nodes, es) <==>
            exists j :: 0 <= j < |es| && es[j].key == k && IsMap(nodes, Some(es[j].val)) && ArgumentOf(nodes, Some(es[j].val)) == a
  {
    if (k, a) in ArgumentPairs(nodes, es) {
      ArgumentPairWitness(nodes, es, k, a);
    }
    if exists j :: 0 <= j < |es| && es[j].key == k && IsMap(nodes, Some(es[j].val)) && ArgumentOf(nodes, Some(es[j].val)) == a {
      var j :| 0 <= j < |es| && es[j].key == k && IsMap(nodes, Some(es[j].val)) && ArgumentOf(nodes, Some(es[j].val)) == a;
      ArgumentPairPresent(nodes, es, k, a, j);
    }
  }

  /** A pair that is put comes from an entry. */
  lemma {:induction false} ArgumentPairWitness(nodes: seq<Node>, es: seq<MapEntry>, k: Str, a: ArgumentValue)
    requires Closed(nodes) && EntriesInHeap(nodes, es)
    requires (k, a) in ArgumentPairs(nodes, es)
    ensures exists j :: 0 <= j < |es| && es[j].key == k && IsMap(nodes, Some(es[j].val)) && ArgumentOf(nodes, Some(es[j].val)) == a
    decreases |es|
  {
    var n := |es| - 1;
    var head := es[..n];
    if !(es[n].key == k && IsMap(nodes, Some(es[n].val)) && ArgumentOf(nodes, Some(es[n].val)) == a) {
      assert (k, a) in ArgumentPairs(nodes, head);
      ArgumentPairWitness(nodes, head, k, a);
      var j :| 0 <= j < |head| && head[j].key == k && IsMap(nodes, Some(head[j].val)) && ArgumentOf(nodes, Some(head[j].val)) == a;
      assert es[j] == head[j];
    }
  }

  /** An entry that qualifies has its pair put. */
  lemma {:induction false} ArgumentPairPresent(nodes: seq<Node>, es: seq<MapEntry>, k: Str, a: ArgumentValue, j: nat)
    requires Closed(nodes) && EntriesInHeap(nodes, es)
    requires j < |es| && es[j].key == k && IsMap(nodes, Some(es[j].val)) && ArgumentOf(nodes, Some(es[j].val)) == a
    ensures (k, a) in ArgumentPairs(nodes, es)
    decreases |es|
  {
    var n := |es| - 1;
    var head := es[..n];
    if j < n {
      assert head[j] == es[j];
      ArgumentPairPresent(nodes, head, k, a, j);
    }
  }

  /** The (key, flags) pairs `dset_profile_config` puts: one per sequence-valued entry, in order. */
  function ProfilePairs(nodes: seq<Node>, es: seq<MapEntry>): (r: seq<(Str, seq<Str>)>)
    requires Closed(nodes) && EntriesInHeap(nodes, es)
    ensures |r| <= |es|
    decreases |es|
  {
    if es == [] then []
    else
      var n := |es| - 1;
      ProfilePairs(nodes, es[..n]) +
      (if nodes[es[n].val].value.SequenceValue? then [(es[n].key, StringsOnly(nodes, ItemsOf(nodes, Some(es[n].val))))] else [])
  }

  /** One more entry adds at most one pair: the flags of that entry, if it holds a sequence. */
  lemma ProfilePairsSnoc(nodes: seq<Node>, es: seq<MapEntry>, i: nat)
    requires Closed(nodes) && EntriesInHeap(nodes, es) && i < |es|
    ensures ProfilePairs(nodes, es[..i + 1]) ==
            ProfilePairs(nodes, es[..i]) +
            (if nodes[es[i].val].value.SequenceValue? then [(es[i].key, StringsOnly(nodes, ItemsOf(nodes, Some(es[i].val))))] else [])
  {
    assert es[..i + 1][..i] == es[..i];
  }

  /**
   * Flags are put under `k` exactly for the sequence-valued entries named
   * `k`, and are that sequence's string items; other entries are ignored.
   */
  lemma {:induction false} ProfilePairsMembers(nodes: seq<Node>, es: seq<MapEntry>, k: Str, flags: seq<Str>)
    requires Closed(nodes) && EntriesInHeap(nodes, es)
    ensures (k, flags) in ProfilePairs(nodes, es) <==>
            exists j :: 0 <= j < |es| && es[j].key == k && IsSequence(nodes, Some(es[j].val)) &&
                        StringsOnly(nodes, ItemsOf(nodes, Some(es[j].val))) == flags
  {
    if (k, flags) in ProfilePairs(nodes, es) {
      ProfilePairWitness(nodes, es, k, flags);
    }
    if exists j :: 0 <= j < |es| && es[j].key == k && IsSequence(nodes, Some(es[j].val)) &&
                    StringsOnly(nodes, ItemsOf(nodes, Some(es[j].val))) == flags {
      var j :| 0 <= j < |es| && es[j].key == k && IsSequence(nodes, Some(es[j].val)) &&
                    StringsOnly(nodes, ItemsOf(nodes, Some(es[j].val))) == flags;
      ProfilePairPresent(nodes, es, k, flags, j);
    }
  }

  /** A pair that is put comes from an entry. */
  lemma {:induction false} ProfilePairWitness(nodes: seq<Node>, es: seq<MapEntry>, k: Str, flags: seq<Str>)
    requires Closed(nodes) && EntriesInHeap(nodes, es)
    requires (k, flags) in ProfilePairs(nodes, es)
    ensures exists j :: 0 <= j < |es| && es[j].key == k && IsSequence(nodes, Some(es[j].val)) &&
                        StringsOnly(nodes, ItemsOf(nodes, Some(es[j].val))) == flags
    decreases |es|
  {
    var n := |es| - 1;
    var head := es[..n];
    if !(es[n].key == k && IsSequence(nodes, Some(es[n].val)) &&
          StringsOnly(nodes, ItemsOf(nodes, Some(es[n].val))) == flags) {
      assert (k, flags) in ProfilePairs(nodes, head);
      ProfilePairWitness(nodes, head, k, flags);
      var j :| 0 <= j < |head| && head[j].key == k && IsSequence(nodes, Some(head[j].val)) &&
                    StringsOnly(nodes, ItemsOf(nodes, Some(head[j].val))) == flags;
      assert es[j] == head[j];
    }
  }

  /** An entry that qualifies has its pair put. */
  lemma {:induction false} ProfilePairPresent(nodes: seq<Node>, es: seq<MapEntry>, k: Str, flags: seq<Str>, j: nat)
    requires Closed(nodes) && EntriesInHeap(nodes, es)
    requires j < |es| && es[j].key == k && IsSequence(nodes, Some(es[j].val)) &&
            StringsOnly(nodes, ItemsOf(nodes, Some(es[j].val))) == flags
    ensures (k, flags) in ProfilePairs(nodes, es)
    decreases |es|
  {
    var n := |es| - 1;
    var head := es[..n];
    if j < n {
      assert head[j] == es[j];
      ProfilePairPresent(nodes, head, k, flags, j);
    }
  }

  /** `macros = z3_hashmap_create()`, then a `put` per string-valued entry of the map node. */
  method ReadMacros(h: Yaml.NodeHeap, node: Option<NodeId>) returns (t: HashMaps.HashMap<Str>)
    requires Closed(h.nodes) && IsMap(h.nodes, node)
    ensures fresh(t) && fresh(t.entries) && t.Valid()
    ensures t.entries[..] == HashMaps.PutAll(HashMaps.EmptyTable(), MacroPairs(h.nodes, EntriesOf(h.nodes, node)))
  {
    t := new HashMaps.HashMap<Str>.Create();
    ghost var start := t.entries[..];
    var es := EntriesOf(h.nodes, node);
    for i := 0 to |es|
      invariant fresh(t) && fresh(t.entries) && t.Valid()
      invariant t.entries[..] == HashMaps.PutAll(start, MacroPairs(h.nodes, es[..i]))
    {
      var key, val := es[i].key, es[i].val;
      ghost var before, after := MacroPairs(h.nodes, es[..i]), MacroPairs(h.nodes, es[..i + 1]);
      MacroPairsSnoc(h.nodes, es, i);
      if h.nodes[val].value.StringValue? {
        var str := h.nodes[val].value.str;
        assert after == before + [(key, str)];
        HashMaps.PutAllSnoc(start, before, key, str);
        t.Put(Some(key), Some(str));
      } else {
        assert after == before;
      }
    }
    assert es[..|es|] == es;
  }

  /** One record of `arguments`: `malloc(sizeof(ArgumentConfig))` filled by `dset_argument_config`. */
  method ReadArgument(h: Yaml.NodeHeap, id: NodeId) returns (a: ArgumentValue)
    requires Closed(h.nodes) && IsMap(h.nodes, Some(id))
    ensures a == ArgumentOf(h.nodes, Some(id))
  {
    var argconf := new ArgumentConfig.Alloc();
    argconf.Dset(h, Some(id));
    a := argconf.Value();
  }

  /** `arguments = z3_hashmap_create()`, then a new record `put` per map-valued entry of the map node. */
  method ReadArguments(h: Yaml.NodeHeap, node: Option<NodeId>) returns (t: HashMaps.HashMap<ArgumentValue>)
    requires Closed(h.nodes) && IsMap(h.nodes, node)
    ensures fresh(t) && fresh(t.entries) && t.Valid()
    ensures t.entries[..] == HashMaps.PutAll(HashMaps.EmptyTable(), ArgumentPairs(h.nodes, EntriesOf(h.nodes, node)))
  {
    t := new HashMaps.HashMap<ArgumentValue>.Create();
    ghost var start := t.entries[..];
    var es := EntriesOf(h.nodes, node);
    for i := 0 to |es|
      invariant fresh(t) && fresh(t.entries) && t.Valid()
      invariant t.entries[..] == HashMaps.PutAll(start, ArgumentPairs(h.nodes, es[..i]))
    {
      var key, val := es[i].key, es[i].val;
      ghost var before, after := ArgumentPairs(h.nodes, es[..i]), ArgumentPairs(h.nodes, es[..i + 1]);
      ArgumentPairsSnoc(h.nodes, es, i);
      if h.nodes[val].value.MapValue? {
        var a := ReadArgument(h, val);
        assert after == before + [(key, a)];
        HashMaps.PutAllSnoc(start, before, key, a);
        t.Put(Some(key), Some(a));
      } else {
        assert after == before;
      }
    }
    assert es[..|es|] == es;
  }

  /**
   * `dset_profile_config(pconf, node)`: nothing for NULL or a non-map;
   * otherwise a new flag vector `put` per sequence-valued entry, in order.
   */
  method DsetProfile(pconf: HashMaps.HashMap<seq<Str>>, h: Yaml.NodeHeap, node: Option<NodeId>)
    requires Closed(h.nodes) && InHeap(h.nodes, node) && pconf.Valid()
    modifies pconf.entries, pconf`count
    ensures pconf.Valid()
    ensures pconf.entries[..] == if IsMap(h.nodes, node)
                                 then HashMaps.PutAll(old(pconf.entries[..]), ProfilePairs(h.nodes, EntriesOf(h.nodes, node)))
                                 else old(pconf.entries[..])
  {
    if node.None? || !h.nodes[node.value].value.MapValue? {
      return;
    }
    var es := EntriesOf(h.nodes, node);
    ghost var start := pconf.entries[..];
    for i := 0 to |es|
      invariant pconf.Valid()
      invariant pconf.entries[..] == HashMaps.PutAll(start, ProfilePairs(h.nodes, es[..i]))
    {
      var key, val := es[i].key, es[i].val;
      ghost var before, after := ProfilePairs(h.nodes, es[..i]), ProfilePairs(h.nodes, es[..i + 1]);
      ProfilePairsSnoc(h.nodes, es, i);
      if h.nodes[val].value.SequenceValue? {
        var flags := ReadFlags(h, ItemsOf(h.nodes, Some(val)));
        var fl := flags.Elements();
        assert after == before + [(key, fl)];
        HashMaps.PutAllSnoc(start, before, key, fl);
        pconf.Put(Some(key), Some(fl));
      } else {
        assert after == before;
      }
    }
    assert es[..|es|] == es;
  }

  /** With at most 32 macros, `get(macros, k)` is the string of the last string-valued entry put under `k`. */
  lemma MacrosTable(nodes: seq<Node>, node: Option<NodeId>, k: Str)
    requires Closed(nodes) && IsMap(nodes, node) && |EntriesOf(nodes, node)| <= HashMaps.InitialCapacity
    ensures var ps := MacroPairs(nodes, EntriesOf(nodes, node));
            HashMaps.Lookup(HashMaps.PutAll(HashMaps.EmptyTable(), ps), k) == HashMaps.LastBinding(ps, k)
  {
    HashMaps.PutAllLookup(MacroPairs(nodes, EntriesOf(nodes, node)), k);
  }

  /** With at most 32 entries, `get(arguments, k)` is the record of the last map-valued entry put under `k`. */
  lemma ArgumentsTable(nodes: seq<Node>, node: Option<NodeId>, k: Str)
    requires Closed(nodes) && IsMap(nodes, node) && |EntriesOf(nodes, node)| <= HashMaps.InitialCapacity
    ensures var ps := ArgumentPairs(nodes, EntriesOf(nodes, node));
            HashMaps.Lookup(HashMaps.PutAll(HashMaps.EmptyTable(), ps), k) == HashMaps.LastBinding(ps, k)
  {
    HashMaps.PutAllLookup(ArgumentPairs(nodes, EntriesOf(nodes, node)), k);
  }

  /** With at most 32 profiles, a new table's `get(profiles, k)` is the flags of the last sequence put under `k`. */
  lemma ProfilesTable(nodes: seq<Node>, node: Option<NodeId>, k: Str)
    requires Closed(nodes) && IsMap(nodes, node) && |EntriesOf(nodes, node)| <= HashMaps.InitialCapacity
    ensures var ps := ProfilePairs(nodes, EntriesOf(nodes, node));
            HashMaps.Lookup(HashMaps.PutAll(HashMaps.EmptyTable(), ps), k) == HashMaps.LastBinding(ps, k)
  {
    HashMaps.PutAllLookup(ProfilePairs(nodes, EntriesOf(nodes, node)), k);
  }

  // ----- BuildConfig -----

  /** The dependency records of the items: `DependencyOf` each on a struct holding `prior`. */
  function DepsFrom(nodes: seq<Node>, items: seq<NodeId>, prior: DependencyValue): (r: seq<DependencyValue>)
    requires Closed(nodes) && AllInHeap(nodes, items)
    ensures |r| == |items|
    decreases |items|
  {
    if items == [] then []
    else
      var n := |items| - 1;
      DepsFrom(nodes, items[..n], prior) + [DependencyOf(nodes, prior, Some(items[n]))]
  }

  /** Record `j` is item `j`'s fields when item `j` is a map, and `prior` untouched otherwise. */
  lemma {:induction false} DepsFromAt(nodes: seq<Node>, items: seq<NodeId>, prior: DependencyValue)
    requires Closed(nodes) && AllInHeap(nodes, items)
    ensures forall j :: 0 <= j < |items| ==> DepsFrom(nodes, items, prior)[j] == DependencyOf(nodes, prior, Some(items[j]))
    decreases |items|
  {
    if items != [] {
      var n := |items| - 1;
      DepsFromAt(nodes, items[..n], prior);
      assert forall j :: 0 <= j < n ==> items[..n][j] == items[j];
    }
  }

  /** The fields of `BuildConfig`, with each table as its slots. */
  datatype BuildValue = BuildValue(
    compiler: Option<Str>, cstd: Option<Str>,
    macros: Option<seq<HashMaps.Entry<Str>>>,
    arguments: Option<seq<HashMaps.Entry<ArgumentValue>>>,
    deps: Option<seq<DependencyValue>>, depsCount: nat)

  /**
   * What `dset_build_config` sets from a node, with NULL for a table whose
   * key does not hold a map and a NULL record for a dependency item that is
   * not a map.  There is no kind check: `map_get_node` answers NULL for a
   * NULL or non-map node, so every field is then NULL.
   */
  function BuildOf(nodes: seq<Node>, node: Option<NodeId>): BuildValue
    requires Closed(nodes) && InHeap(nodes, node)
  {
    var m := Child(nodes, node, MacrosKey);
    var a := Child(nodes, node, ArgumentsKey);
    var d := Child(nodes, node, DepsKey);
    BuildValue(
      Field(nodes, node, CompilerKey), Field(nodes, node, CstdKey),
      if IsMap(nodes, m) then Some(HashMaps.PutAll(HashMaps.EmptyTable(), MacroPairs(nodes, EntriesOf(nodes, m)))) else None,
      if IsMap(nodes, a) then Some(HashMaps.PutAll(HashMaps.EmptyTable(), ArgumentPairs(nodes, EntriesOf(nodes, a)))) else None,
      if IsSequence(nodes, d) then Some(DepsFrom(nodes, ItemsOf(nodes, d), NullDependency)) else None,
      if IsSequence(nodes, d) then |ItemsOf(nodes, d)| else 0)
  }

  /**
   * `dset_build_config` as written: `macros` and `arguments` are assigned
   * only when their key holds a map, so otherwise they keep what `prior`
   * (the uninitialised struct) held; the `deps` array is not initialised
   * either, so a dependency item that is not a map leaves `junk`.
   */
  function BuildAsWritten(prior: BuildValue, junk: DependencyValue, nodes: seq<Node>, node: Option<NodeId>): BuildValue
    requires Closed(nodes) && InHeap(nodes, node)
  {
    var b := BuildOf(nodes, node);
    var m := Child(nodes, node, MacrosKey);
    var a := Child(nodes, node, ArgumentsKey);
    var d := Child(nodes, node, DepsKey);
    b.(macros := if IsMap(nodes, m) then b.macros else prior.macros,
       arguments := if IsMap(nodes, a) then b.arguments else prior.arguments,
       deps := if IsSequence(nodes, d) then Some(DepsFrom(nodes, ItemsOf(nodes, d), junk)) else None)
  }

  /**
   * As written, a build node without a `macros` or `arguments` map hands back
   * whatever the struct held before, and a non-map dependency item hands back
   * the uninitialised record: the result depends on memory never written.
   */
  lemma BuildAsWrittenKeepsGarbage(prior: BuildValue, junk: DependencyValue, nodes: seq<Node>, node: Option<NodeId>)
    requires Closed(nodes) && InHeap(nodes, node)
    ensures var r := BuildAsWritten(prior, junk, nodes, node);
            (!IsMap(nodes, Child(nodes, node, MacrosKey)) ==> r.macros == prior.macros) &&
            (!IsMap(nodes, Child(nodes, node, ArgumentsKey)) ==> r.arguments == prior.arguments)
    ensures var d := Child(nodes, node, DepsKey);
            var r := BuildAsWritten(prior, junk, nodes, node);
            IsSequence(nodes, d) ==>
              forall j :: 0 <= j < |ItemsOf(nodes, d)| && !IsMap(nodes, Some(ItemsOf(nodes, d)[j])) ==> r.deps.value[j] == junk
  {
    var d := Child(nodes, node, DepsKey);
    if IsSequence(nodes, d) {
      DepsFromAt(nodes, ItemsOf(nodes, d), junk);
    }
  }

  /** The build node `{compiler: "gcc"}`: as written, `macros` is whatever was in memory, not NULL. */
  lemma BuildAsWrittenExample(prior: BuildValue)
    requires prior.macros.Some?
    ensures var nodes := [Node(1, StringValue("gcc")), Node(1, MapValue(Map(16, [MapEntry(CompilerKey, 0)])))];
            Closed(nodes) &&
            BuildAsWritten(prior, NullDependency, nodes, Some(1)).macros.Some? &&
            BuildOf(nodes, Some(1)).macros.None?
  {
    var nodes := [Node(1, StringValue("gcc")), Node(1, MapValue(Map(16, [MapEntry(CompilerKey, 0)])))];
    assert Parser.ValueBelow(nodes[1].value, 2);
    assert Closed(nodes);
    Yaml.MapGetNodeFirst(nodes, 1, MacrosKey);
    assert Child(nodes, Some(1), MacrosKey).None?;
  }

  /**
   * `dset_build_config` as intended: each table is set exactly when its key
   * holds a map, `deps` exactly when its key holds a sequence, with
   * `deps_count` its size, and a dependency item that is not a map gives a
   * record of NULLs.
   */
  lemma BuildFields(nodes: seq<Node>, node: Option<NodeId>)
    requires Closed(nodes) && InHeap(nodes, node)
    ensures var r := BuildOf(nodes, node);
            (r.macros.Some? <==> IsMap(nodes, Child(nodes, node, MacrosKey))) &&
            (r.arguments.Some? <==> IsMap(nodes, Child(nodes, node, ArgumentsKey))) &&
            (r.deps.Some? <==> IsSequence(nodes, Child(nodes, node, DepsKey))) &&
            (r.deps.None? ==> r.depsCount == 0)
    ensures var d := Child(nodes, node, DepsKey);
            var r := BuildOf(nodes, node);
            IsSequence(nodes, d) ==>
              r.depsCount == |r.deps.value| == |ItemsOf(nodes, d)| &&
              forall j :: 0 <= j < |ItemsOf(nodes, d)| ==>
                r.deps.value[j] == (if IsMap(nodes, Some(ItemsOf(nodes, d)[j]))
                                    then DependencyOf(nodes, NullDependency, Some(ItemsOf(nodes, d)[j]))
                                    else NullDependency)
  {
    var d := Child(nodes, node, DepsKey);
    if IsSequence(nodes, d) {
      DepsFromAt(nodes, ItemsOf(nodes, d), NullDependency);
    }
  }

  /** The `deps` loop: a zeroed array of records, each set by `dset_dependency_config` from its item. */
  method ReadDeps(h: Yaml.NodeHeap, items: seq<NodeId>) returns (r: seq<DependencyValue>)
    requires Closed(h.nodes) && AllInHeap(h.nodes, items)
    ensures r == DepsFrom(h.nodes, items, NullDependency)
  {
    var buf := new DependencyValue[|items|](_ => NullDependency);
    for i := 0 to |items|
      invariant buf[..i] == DepsFrom(h.nodes, items[..i], NullDependency)
      invariant forall j :: i <= j < |items| ==> buf[j] == NullDependency
    {
      DsetDependency(buf, i, h, Some(items[i]));
      assert items[..i + 1][..i] == items[..i];
    }
    assert items[..|items|] == items;
    r := buf[..];
  }

  /** `struct BuildConfig`, filled in place by `dset_build_config`. */
  class BuildConfig {
    var compiler: Option<Str>
    var cstd: Option<Str>
    var macros: Option<HashMaps.HashMap<Str>>
    var arguments: Option<HashMaps.HashMap<ArgumentValue>>
    var deps: Option<seq<DependencyValue>>
    var depsCount: nat

    /** `malloc(sizeof(BuildConfig))`. */
    constructor Alloc()
    {
    }

    function Value(): BuildValue
      reads this
      reads if macros.Some? then {macros.value, macros.value.entries} else {}
      reads if arguments.Some? then {arguments.value, arguments.value.entries} else {}
    {
      BuildValue(compiler, cstd,
                 if macros.Some? then Some(macros.value.entries[..]) else None,
                 if arguments.Some? then Some(arguments.value.entries[..]) else None,
                 deps, depsCount)
    }

    /** Both tables, when present, keep the hash map invariant. */
    ghost predicate Valid()
      reads this
      reads if macros.Some? then {macros.value, macros.value.entries} else {}
      reads if arguments.Some? then {arguments.value, arguments.value.entries} else {}
    {
      (macros.Some? ==> macros.value.Valid()) && (arguments.Some? ==> arguments.value.Valid())
    }

    /** `dset_build_config(bconf, node)`, with the fields it leaves unset set to NULL. */
    method Dset(h: Yaml.NodeHeap, node: Option<NodeId>)
      requires Closed(h.nodes) && InHeap(h.nodes, node)
      modifies this
      ensures Valid() && Value() == BuildOf(h.nodes, node)
      ensures macros.Some? ==> fresh(macros.value) && fresh(macros.value.entries)
      ensures arguments.Some? ==> fresh(arguments.value) && fresh(arguments.value.entries)
    {
      var comp := Yaml.MapGetNode(h, node, CompilerKey);
      var std := Yaml.MapGetNode(h, node, CstdKey);
      compiler, cstd := StringOf(h.nodes, comp), StringOf(h.nodes, std);
      macros := ReadMacrosField(h, node);
      arguments := ReadArgumentsField(h, node);
      deps, depsCount := ReadDepsField(h, node);
    }
  }

  /** The `macros` part of `dset_build_config`: a new table when the key holds a map, else NULL. */
  method ReadMacrosField(h: Yaml.NodeHeap, node: Option<NodeId>) returns (r: Option<HashMaps.HashMap<Str>>)
    requires Closed(h.nodes) && InHeap(h.nodes, node)
    ensures r.Some? ==> fresh(r.value) && fresh(r.value.entries) && r.value.Valid()
    ensures (if r.Some? then Some(r.value.entries[..]) else None) == BuildOf(h.nodes, node).macros
  {
    var m := Yaml.MapGetNode(h, node, MacrosKey);
    if m.Some? && h.nodes[m.value].value.MapValue? {
      var t := ReadMacros(h, m);
      r := Some(t);
    } else {
      r := None;
    }
  }

  /** The `arguments` part of `dset_build_config`: a new table when the key holds a map, else NULL. */
  method ReadArgumentsField(h: Yaml.NodeHeap, node: Option<NodeId>) returns (r: Option<HashMaps.HashMap<ArgumentValue>>)
    requires Closed(h.nodes) && InHeap(h.nodes, node)
    ensures r.Some? ==> fresh(r.value) && fresh(r.value.entries) && r.value.Valid()
    ensures (if r.Some? then Some(r.value.entries[..]) else None) == BuildOf(h.nodes, node).arguments
  {
    var args := Yaml.MapGetNode(h, node, ArgumentsKey);
    if args.Some? && h.nodes[args.value].value.MapValue? {
      var t := ReadArguments(h, args);
      r := Some(t);
    } else {
      r := None;
    }
  }

  /** The `deps` part of `dset_build_config`: the records and their count, or NULL and zero. */
  method ReadDepsField(h: Yaml.NodeHeap, node: Option<NodeId>) returns (ds: Option<seq<DependencyValue>>, count: nat)
    requires Closed(h.nodes) && InHeap(h.nodes, node)
    ensures ds == BuildOf(h.nodes, node).deps && count == BuildOf(h.nodes, node).depsCount
  {
    var d := Yaml.MapGetNode(h, node, DepsKey);
    if d.Some? && h.nodes[d.value].value.SequenceValue? {
      var items := ItemsOf(h.nodes, d);
      count := |items|;
      var r := ReadDeps(h, items);
      ds := Some(r);
    } else {
      ds := None;
      count := 0;
    }
  }

  // ----- AnvilConfig -----

  /** The fields of `AnvilConfig`, with each nested record as its value and the profile table as its slots. */
  datatype AnvilValue = AnvilValue(
    package: Option<Str>, version: Option<Str>, author: Option<Str>, description: Option<Str>,
    workspace: Option<WorkspaceValue>, targets: Option<TargetsValue>, build: Option<BuildValue>,
    profiles: Option<seq<HashMaps.Entry<seq<Str>>>>)

  /**
   * What `dset_anvil_config` sets from a map node: the four strings, and each
   * nested record or table filled from its key when that key holds the right
   * kind of node, else NULL.
   */
  function AnvilOf(nodes: seq<Node>, node: Option<NodeId>): AnvilValue
    requires Closed(nodes) && IsMap(nodes, node)
  {
    AnvilValue(
      Field(nodes, node, PackageKey), Field(nodes, node, VersionKey),
      Field(nodes, node, AuthorKey), Field(nodes, node, DescriptionKey),
      WorkspaceAt(nodes, node), TargetsAt(nodes, node), BuildAt(nodes, node), ProfilesAt(nodes, node))
  }

  /** The `workspace` record: filled from the key when it holds a map, else NULL. */
  function WorkspaceAt(nodes: seq<Node>, node: Option<NodeId>): Option<WorkspaceValue>
    requires Closed(nodes) && InHeap(nodes, node)
  {
    var w := Child(nodes, node, WorkspaceKey);
    if IsMap(nodes, w) then Some(WorkspaceOf(nodes, w)) else None
  }

  /** The `targets` record: filled from the key when it holds a sequence, else NULL. */
  function TargetsAt(nodes: seq<Node>, node: Option<NodeId>): Option<TargetsValue>
    requires Closed(nodes) && InHeap(nodes, node)
  {
    var t := Child(nodes, node, TargetsKey);
    if IsSequence(nodes, t) then Some(TargetsOf(nodes, t)) else None
  }

  /** The `build` record: filled from the key when it holds a map, else NULL. */
  function BuildAt(nodes: seq<Node>, node: Option<NodeId>): Option<BuildValue>
    requires Closed(nodes) && InHeap(nodes, node)
  {
    var b := Child(nodes, node, BuildKey);
    if IsMap(nodes, b) then Some(BuildOf(nodes, b)) else None
  }

  /** The `profiles` table: filled from the key when it holds a map, else NULL. */
  function ProfilesAt(nodes: seq<Node>, node: Option<NodeId>): Option<seq<HashMaps.Entry<seq<Str>>>>
    requires Closed(nodes) && InHeap(nodes, node)
  {
    var p := Child(nodes, node, ProfilesKey);
    if IsMap(nodes, p) then Some(HashMaps.PutAll(HashMaps.EmptyTable(), ProfilePairs(nodes, EntriesOf(nodes, p)))) else None
  }

  /**
   * `dset_anvil_config` fills each nested record or table exactly when its key
   * holds the right kind of node (a sequence for `targets`, a map for the
   * others); a profile table of at most 32 profiles then answers `get(k)` with
   * the flags of the last sequence under `k`.
   */
  lemma AnvilFields(nodes: seq<Node>, node: Option<NodeId>)
    requires Closed(nodes) && IsMap(nodes, node)
    ensures var r := AnvilOf(nodes, node);
            (r.workspace.Some? <==> IsMap(nodes, Child(nodes, node, WorkspaceKey))) &&
            (r.targets.Some? <==> IsSequence(nodes, Child(nodes, node, TargetsKey))) &&
            (r.build.Some? <==> IsMap(nodes, Child(nodes, node, BuildKey))) &&
            (r.profiles.Some? <==> IsMap(nodes, Child(nodes, node, ProfilesKey)))
    ensures var p, r := Child(nodes, node, ProfilesKey), AnvilOf(nodes, node);
            IsMap(nodes, p) && |EntriesOf(nodes, p)| <= HashMaps.InitialCapacity ==>
              forall k :: HashMaps.Lookup(r.profiles.value, k) == HashMaps.LastBinding(ProfilePairs(nodes, EntriesOf(nodes, p)), k)
  {
    var p := Child(nodes, node, ProfilesKey);
    if IsMap(nodes, p) && |EntriesOf(nodes, p)| <= HashMaps.InitialCapacity {
      forall k {
        ProfilesTable(nodes, p, k);
      }
    }
  }

  /** A nullable `WorkspaceConfig *`, read as its value. */
  function WorkspaceValueOf(w: Option<WorkspaceConfig>): Option<WorkspaceValue>
    reads if w.Some? then {w.value} else {}
  {
    if w.Some? then Some(w.value.Value()) else None
  }

  /** A nullable `BuildTarget *`, read as its value. */
  function TargetsValueOf(t: Option<BuildTarget>): Option<TargetsValue>
    reads if t.Some? then {t.value} else {}
  {
    if t.Some? then Some(t.value.Value()) else None
  }

  /** The objects a nullable `BuildConfig *` reaches. */
  function BuildFootprint(b: Option<BuildConfig>): set<object>
    reads if b.Some? then {b.value} else {}
    reads if b.Some? && b.value.macros.Some? then {b.value.macros.value} else {}
    reads if b.Some? && b.value.arguments.Some? then {b.value.arguments.value} else {}
  {
    if b.None? then {}
    else {b.value}
         + (if b.value.macros.Some? then {b.value.macros.value, b.value.macros.value.entries} else {})
         + (if b.value.arguments.Some? then {b.value.arguments.value, b.value.arguments.value.entries} else {})
  }

  /** A nullable `BuildConfig *`, read as its value. */
  function BuildValueOf(b: Option<BuildConfig>): Option<BuildValue>
    reads if b.Some? then {b.value} else {}
    reads BuildFootprint(b)
  {
    if b.Some? then Some(b.value.Value()) else None
  }

  /** The objects a nullable profile table reaches. */
  function ProfilesFootprint(p: Option<HashMaps.HashMap<seq<Str>>>): set<object>
    reads if p.Some? then {p.value} else {}
  {
    if p.Some? then {p.value, p.value.entries} else {}
  }

  /** A nullable profile table, read as its slots. */
  function ProfilesValueOf(p: Option<HashMaps.HashMap<seq<Str>>>): Option<seq<HashMaps.Entry<seq<Str>>>>
    reads ProfilesFootprint(p)
  {
    if p.Some? then Some(p.value.entries[..]) else None
  }

  /** The four string fields of `dset_anvil_config`. */
  method ReadNames(h: Yaml.NodeHeap, node: Option<NodeId>) returns (pkg: Option<Str>, ver: Option<Str>, auth: Option<Str>, desc: Option<Str>)
    requires Closed(h.nodes) && InHeap(h.nodes, node)
    ensures pkg == Field(h.nodes, node, PackageKey) && ver == Field(h.nodes, node, VersionKey)
    ensures auth == Field(h.nodes, node, AuthorKey) && desc == Field(h.nodes, node, DescriptionKey)
  {
    var n := Yaml.MapGetNode(h, node, PackageKey);
    pkg := StringOf(h.nodes, n);
    n := Yaml.MapGetNode(h, node, VersionKey);
    ver := StringOf(h.nodes, n);
    n := Yaml.MapGetNode(h, node, AuthorKey);
    auth := StringOf(h.nodes, n);
    n := Yaml.MapGetNode(h, node, DescriptionKey);
    desc := StringOf(h.nodes, n);
  }

  /** The `workspace` part of `dset_anvil_config`: a new filled record when the key holds a map, else NULL. */
  method ReadWorkspace(h: Yaml.NodeHeap, node: Option<NodeId>) returns (r: Option<WorkspaceConfig>)
    requires Closed(h.nodes) && InHeap(h.nodes, node)
    ensures r.Some? ==> fresh(r.value)
    ensures WorkspaceValueOf(r) == WorkspaceAt(h.nodes, node)
  {
    var workspc := Yaml.MapGetNode(h, node, WorkspaceKey);
    if workspc.Some? && h.nodes[workspc.value].value.MapValue? {
      var w := new WorkspaceConfig.Alloc();
      w.Dset(h, workspc);
      r := Some(w);
    } else {
      r := None;
    }
  }

  /** The `targets` part of `dset_anvil_config`: a new filled record when the key holds a sequence, else NULL. */
  method ReadTargets(h: Yaml.NodeHeap, node: Option<NodeId>) returns (r: Option<BuildTarget>)
    requires Closed(h.nodes) && InHeap(h.nodes, node)
    ensures r.Some? ==> fresh(r.value)
    ensures TargetsValueOf(r) == TargetsAt(h.nodes, node)
  {
    var tnode := Yaml.MapGetNode(h, node, TargetsKey);
    if tnode.Some? && h.nodes[tnode.value].value.SequenceValue? {
      var t := new BuildTarget.Alloc();
      t.Dset(h, tnode);
      r := Some(t);
    } else {
      r := None;
    }
  }

  /** The `build` part of `dset_anvil_config`: a new filled record when the key holds a map, else NULL. */
  method ReadBuild(h: Yaml.NodeHeap, node: Option<NodeId>) returns (r: Option<BuildConfig>)
    requires Closed(h.nodes) && InHeap(h.nodes, node)
    ensures r.Some? ==> fresh(r.value) && r.value.Valid()
    ensures r.Some? && r.value.macros.Some? ==> fresh(r.value.macros.value) && fresh(r.value.macros.value.entries)
    ensures r.Some? && r.value.arguments.Some? ==> fresh(r.value.arguments.value) && fresh(r.value.arguments.value.entries)
    ensures BuildValueOf(r) == BuildAt(h.nodes, node)
  {
    var bnode := Yaml.MapGetNode(h, node, BuildKey);
    if bnode.Some? && h.nodes[bnode.value].value.MapValue? {
      var b := new BuildConfig.Alloc();
      b.Dset(h, bnode);
      r := Some(b);
    } else {
      r := None;
    }
  }

  /** The `profiles` part of `dset_anvil_config`: a new filled table when the key holds a map, else NULL. */
  method ReadProfiles(h: Yaml.NodeHeap, node: Option<NodeId>) returns (r: Option<HashMaps.HashMap<seq<Str>>>)
    requires Closed(h.nodes) && InHeap(h.nodes, node)
    ensures r.Some? ==> fresh(r.value) && fresh(r.value.entries) && r.value.Valid()
    ensures ProfilesValueOf(r) == ProfilesAt(h.nodes, node)
  {
    var pnode := Yaml.MapGetNode(h, node, ProfilesKey);
    if pnode.Some? && h.nodes[pnode.value].value.MapValue? {
      var p := new HashMaps.HashMap<seq<Str>>.Create();
      DsetProfile(p, h, pnode);
      r := Some(p);
    } else {
      r := None;
    }
  }

  /** `struct AnvilConfig`, filled in place by `dset_anvil_config`. */
  class AnvilConfig {
    var package: Option<Str>
    var version: Option<Str>
    var author: Option<Str>
    var description: Option<Str>
    var workspace: Option<WorkspaceConfig>
    var targets: Option<BuildTarget>
    var build: Option<BuildConfig>
    var profiles: Option<HashMaps.HashMap<seq<Str>>>

    /** `malloc(sizeof(AnvilConfig))`. */
    constructor Alloc()
    {
    }

    function Value(): AnvilValue
      reads this
      reads if workspace.Some? then {workspace.value} else {}
      reads if targets.Some? then {targets.value} else {}
      reads if build.Some? then {build.value} else {}
      reads BuildFootprint(build)
      reads if profiles.Some? then {profiles.value} else {}
      reads ProfilesFootprint(profiles)
    {
      AnvilValue(package, version, author, description,
                 WorkspaceValueOf(workspace), TargetsValueOf(targets), BuildValueOf(build), ProfilesValueOf(profiles))
    }

    /** The nested tables, when present, keep the hash map invariant. */
    ghost predicate Valid()
      reads this
      reads if build.Some? then {build.value} else {}
      reads BuildFootprint(build)
      reads if profiles.Some? then {profiles.value} else {}
      reads ProfilesFootprint(profiles)
    {
      (build.Some? ==> build.value.Valid()) && (profiles.Some? ==> profiles.value.Valid())
    }

    /** The `workspace` and `targets` fields of `dset_anvil_config`. */
    method SetRecords(h: Yaml.NodeHeap, node: Option<NodeId>)
      requires Closed(h.nodes) && IsMap(h.nodes, node)
      modifies this
      ensures package == old(package) && version == old(version) && author == old(author) && description == old(description)
      ensures build == old(build) && profiles == old(profiles)
      ensures workspace.Some? ==> fresh(workspace.value)
      ensures targets.Some? ==> fresh(targets.value)
      ensures WorkspaceValueOf(workspace) == WorkspaceAt(h.nodes, node)
      ensures TargetsValueOf(targets) == TargetsAt(h.nodes, node)
    {
      var w := ReadWorkspace(h, node);
      var t := ReadTargets(h, node);
      workspace, targets := w, t;
    }

    /** The `build` field of `dset_anvil_config`. */
    method SetBuild(h: Yaml.NodeHeap, node: Option<NodeId>)
      requires Closed(h.nodes) && IsMap(h.nodes, node)
      modifies this
      ensures package == old(package) && version == old(version) && author == old(author) && description == old(description)
      ensures workspace == old(workspace) && targets == old(targets) && profiles == old(profiles)
      ensures build.Some? ==> fresh(build.value) && build.value.Valid()
      ensures build.Some? && build.value.macros.Some? ==> fresh(build.value.macros.value) && fresh(build.value.macros.value.entries)
      ensures build.Some? && build.value.arguments.Some? ==> fresh(build.value.arguments.value) && fresh(build.value.arguments.value.entries)
      ensures BuildValueOf(build) == BuildAt(h.nodes, node)
    {
      build := ReadBuild(h, node);
    }

    /** The `profiles` field of `dset_anvil_config`. */
    method SetProfiles(h: Yaml.NodeHeap, node: Option<NodeId>)
      requires Closed(h.nodes) && IsMap(h.nodes, node)
      modifies this
      ensures package == old(package) && version == old(version) && author == old(author) && description == old(description)
      ensures workspace == old(workspace) && targets == old(targets) && build == old(build)
      ensures profiles.Some? ==> fresh(profiles.value) && fresh(profiles.value.entries) && profiles.value.Valid()
      ensures ProfilesValueOf(profiles) == ProfilesAt(h.nodes, node)
    {
      profiles := ReadProfiles(h, node);
    }

    /**
     * `dset_anvil_config(conf, node)`: nothing for NULL or a non-map;
     * otherwise every field, each nested record or table being new. The
     * profile table is read before the build record: the two are new,
     * disjoint objects behind different fields, so the order is not visible.
     */
    method Dset(h: Yaml.NodeHeap, node: Option<NodeId>)
      requires Closed(h.nodes) && InHeap(h.nodes, node)
      modifies this
      ensures !IsMap(h.nodes, node) ==> unchanged(this)
      ensures IsMap(h.nodes, node) ==> Valid() && Value() == AnvilOf(h.nodes, node)
      ensures IsMap(h.nodes, node) && workspace.Some? ==> fresh(workspace.value)
      ensures IsMap(h.nodes, node) && targets.Some? ==> fresh(targets.value)
      ensures IsMap(h.nodes, node) && build.Some? ==> fresh(build.value)
      ensures IsMap(h.nodes, node) && profiles.Some? ==> fresh(profiles.value)
    {
      if node.None? || !h.nodes[node.value].value.MapValue? {
        return;
      }
      package, version, author, description := ReadNames(h, node);
      SetRecords(h, node);
      SetProfiles(h, node);
      SetBuild(h, node);
    }
  }
}

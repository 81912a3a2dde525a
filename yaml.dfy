/**
 * The tree builder of yaml.c as it runs: `parse_value`, `parse_map`,
 * `parse_seq` and `parse_yaml` over a `Tokenizer` and a heap of nodes, each
 * proved to compute what its reference function in `Parser` computes; and
 * the two operations on a finished tree, `map_get_node` and `free_node`.
 */
module Yaml {
  import opened Bytes
  import opened Wrappers
  import opened YamlTypes
  import opened Tokenizers
  import opened Parser

  /** The nodes `create_node` has handed out, addressed by `NodeId`, and those `free_node` has released. */
  class NodeHeap {
    var nodes: seq<Node>
    var released: set<NodeId>

    constructor ()
      ensures nodes == [] && released == {}
    {
      nodes := [];
      released := {};
    }

    /** `create_node` with its payload filled in: a node with `rcount` 1 at a new address. */
    method Alloc(v: Value) returns (id: NodeId)
      modifies this
      ensures id == |old(nodes)| && nodes == old(nodes) + [CreateNode(v)] && released == old(released)
    {
      id := |nodes|;
      nodes := nodes + [CreateNode(v)];
    }

    /** `value->rcount++`. */
    method Retain(id: NodeId)
      requires id < |nodes|
      modifies this
      ensures nodes == old(nodes)[id := old(nodes)[id].(rcount := old(nodes)[id].rcount + 1)]
      ensures released == old(released)
    {
      nodes := nodes[id := nodes[id].(rcount := nodes[id].rcount + 1)];
    }
  }

  /** The parse state a tokenizer and a heap stand for. */
  function Snapshot(t: Tokenizer, h: NodeHeap): PState
    reads t, h
  {
    PState(t.Cur(), t.curToken, t.aliases, h.nodes)
  }

  /** A method's result and final state in the shape of a reference function's result. */
  function Outcome<T>(r: Result<T, Failure>, st: PState): Result<(T, PState), Failure>
  {
    if r.Ok? then Ok((r.value, st)) else Err(r.error)
  }

  // ----- parsing -----

  /** `parse_alias`: a scan of the alias table for the token's name with its sigil made `*`. */
  method ParseAlias(t: Tokenizer, token: Token) returns (r: Option<NodeId>)
    requires 1 <= token.length && token.start + token.length <= |t.text|
    ensures r == ParseAliasF(t.aliases, AliasName(t.text, token))
  {
    if |t.aliases| == 0 {
      return None;
    }
    var name := AliasName(t.text, token);
    var i := 0;
    while i < |t.aliases|
      invariant 0 <= i <= |t.aliases|
      invariant FindAlias(t.aliases, name, i) == FindAlias(t.aliases, name, 0)
    {
      if t.aliases[i].name == name {
        return t.aliases[i].value;
      }
      i := i + 1;
    }
    return None;
  }

  /** `parse_value`: the next token decides. */
  method ParseValue(t: Tokenizer, h: NodeHeap) returns (r: Result<Option<NodeId>, Failure>)
    requires t.Valid() && StateValid(t.text, Snapshot(t, h))
    modifies t, h
    ensures t.Valid() && h.released == old(h.released)
    ensures ParseValueF(t.text, old(Snapshot(t, h))) == Outcome(r, Snapshot(t, h))
    decreases |t.text| - t.cpos, 1
  {
    ghost var st := Snapshot(t, h);
    var n := t.NextToken();
    if n.Err? {
      return Err(n.error);
    }
    var token := n.value;
    assert NextTok(t.text, st) == Ok(Snapshot(t, h));
    if token.kind == Anchor {
      r := ParseAnchor(t, h);
    } else if token.kind == TokenKind.Alias {
      r := ParseAliasRef(t, h);
    } else if token.kind == String || token.kind == StringLit || token.kind == Number || token.kind == Boolean {
      var id := h.Alloc(ScalarValue(t.text, token));
      r := Ok(Some(id));
    } else {
      r := ParseNested(t, h, st);
    }
  }

  /** The anchor case of `parse_value`: the value, then the new binding in the alias table. */
  method ParseAnchor(t: Tokenizer, h: NodeHeap) returns (r: Result<Option<NodeId>, Failure>)
    requires t.Valid() && StateValid(t.text, Snapshot(t, h)) && t.curToken.kind == Anchor
    modifies t, h
    ensures t.Valid() && h.released == old(h.released)
    ensures ParseAnchorF(t.text, old(Snapshot(t, h))) == Outcome(r, Snapshot(t, h))
    decreases |t.text| - t.cpos, 2
  {
    var token := t.PeekToken();
    r := ParseValue(t, h);
    if r.Err? {
      return;
    }
    var name := AliasName(t.text, token);
    if |t.aliases| > 0 {
      var bound := ParseAlias(t, token);
      if bound.Some? {
        return Err(ParserError(YamlError(RedefinedAlias, "", name, token.start, token.length)));
      }
    }
    t.aliases := t.aliases + [YamlAlias(name, r.value)];
  }

  /** The alias case of `parse_value`: the bound node with one more reference. */
  method ParseAliasRef(t: Tokenizer, h: NodeHeap) returns (r: Result<Option<NodeId>, Failure>)
    requires t.Valid() && StateValid(t.text, Snapshot(t, h)) && t.curToken.kind == TokenKind.Alias
    modifies h
    ensures h.released == old(h.released)
    ensures ParseAliasRefF(t.text, old(Snapshot(t, h))) == Outcome(r, Snapshot(t, h))
  {
    var token := t.PeekToken();
    var bound := ParseAlias(t, token);
    if bound.None? {
      return Err(ParserError(YamlError(UndefinedAlias, "", TokenValue(t.text, token), token.start, token.length)));
    }
    h.Retain(bound.value);
    r := Ok(bound);
  }

  /** The `{` and `[` cases of `parse_value`, and NULL for any other token. */
  method ParseNested(t: Tokenizer, h: NodeHeap, ghost st: PState) returns (r: Result<Option<NodeId>, Failure>)
    requires t.Valid() && Extends(t.text, st, Snapshot(t, h)) && Progress(t.text, st.cur, (t.curToken, t.Cur()))
    modifies t, h
    ensures t.Valid() && h.released == old(h.released)
    ensures ParseNestedF(t.text, st, old(Snapshot(t, h))) == Outcome(r, Snapshot(t, h))
    decreases |t.text| - st.cur.cpos, 0
  {
    var token := t.PeekToken();
    if token.kind == OpenMap {
      var m := ParseMap(t, h);
      if m.Err? {
        return Err(m.error);
      }
      r := Ok(Some(m.value));
    } else if token.kind == OpenSeq {
      var s := ParseSeq(t, h);
      if s.Err? {
        return Err(s.error);
      }
      r := Ok(Some(s.value));
    } else {
      r := Ok(None);
    }
  }

  /** What `parse_map` does after a key: the colon, then the value. */
  method KeyValue(t: Tokenizer, h: NodeHeap) returns (r: Result<Option<NodeId>, Failure>)
    requires t.Valid() && StateValid(t.text, Snapshot(t, h)) && t.curToken.kind == Key
    modifies t, h
    ensures t.Valid() && h.released == old(h.released)
    ensures KeyValueF(t.text, old(Snapshot(t, h))) == Outcome(r, Snapshot(t, h))
    decreases |t.text| - t.cpos, 0
  {
    ghost var st := Snapshot(t, h);
    var colon := t.NextToken();
    if colon.Err? {
      return Err(colon.error);
    }
    assert NextTok(t.text, st) == Ok(Snapshot(t, h));
    if colon.value.kind != Colon {
      return Err(Unexpected(colon.value, TokenKindToString(colon.value.kind), TokenKindToString(Colon)));
    }
    r := ParseValue(t, h);
  }

  /** The start of a round of `parse_map`: the next token, and the one after it if that is a comma. */
  method MapRoundHead(t: Tokenizer, h: NodeHeap, ghost m: Map) returns (r: Result<(), Failure>)
    requires t.Valid() && StateValid(t.text, Snapshot(t, h)) && MapBelow(m, |h.nodes|)
    modifies t
    ensures t.Valid() && h.nodes == old(h.nodes)
    ensures r.Ok? ==> StateValid(t.text, Snapshot(t, h)) && old(t.cpos) <= t.cpos
    ensures ParseMapLoopF(t.text, old(Snapshot(t, h)), m)
            == if r.Ok? then MapEntryF(t.text, Snapshot(t, h), m) else Err(r.error)
  {
    ghost var st := Snapshot(t, h);
    var n := t.NextToken();
    if n.Err? {
      return Err(n.error);
    }
    assert NextTok(t.text, st) == Ok(Snapshot(t, h));
    var token := n.value;
    if token.kind == Comma {
      ghost var s1 := Snapshot(t, h);
      var n2 := t.NextToken();
      if n2.Err? {
        return Err(n2.error);
      }
      assert NextTok(t.text, s1) == Ok(Snapshot(t, h));
      if n2.value.kind == Comma {
        return Err(Unexpected(token, TokenKindToString(Comma), ExpectedKey));
      }
    }
    return Ok(());
  }

  /**
   * The rest of a round of `parse_map`: `None` at the end of the map or on a
   * NULL value, and otherwise the entry to add and the loop to go on.
   */
  method MapRoundRest(t: Tokenizer, h: NodeHeap, ghost m: Map) returns (r: Result<Option<(seq<byte>, NodeId)>, Failure>)
    requires t.Valid() && StateValid(t.text, Snapshot(t, h)) && MapBelow(m, |h.nodes|)
    modifies t, h
    ensures t.Valid() && h.released == old(h.released)
    ensures r.Ok? ==> StateValid(t.text, Snapshot(t, h)) && old(t.cpos) <= t.cpos
    ensures r.Ok? && r.value.Some? ==>
              MapBelow(MapAdd(m, r.value.value.0, r.value.value.1), |h.nodes|) && old(t.cpos) < t.cpos
    ensures MapEntryF(t.text, old(Snapshot(t, h)), m)
            == match r
               case Err(e) => Err(e)
               case Ok(None) => Ok((m, Snapshot(t, h)))
               case Ok(Some((key, v))) => ParseMapLoopF(t.text, Snapshot(t, h), MapAdd(m, key, v))
    decreases |t.text| - t.cpos, 1
  {
    ghost var s := Snapshot(t, h);
    var token := t.PeekToken();
    if token.kind == Eof || token.kind == CloseMap {
      return Ok(None);
    }
    if token.kind != Key {
      return Err(Unexpected(token, TokenKindToString(token.kind), TokenKindToString(CloseMap)));
    }
    var v := KeyValue(t, h);
    if v.Err? {
      return Err(v.error);
    }
    if v.value.None? {
      return Ok(None);
    }
    MapAddBelow(m, TokenValue(t.text, token), v.value.value, |s.nodes|, |h.nodes|);
    return Ok(Some((TokenValue(t.text, token), v.value.value)));
  }

  /** `parse_map`: the body of a map up to `}` or the end, then the map node. */
  method ParseMap(t: Tokenizer, h: NodeHeap) returns (r: Result<NodeId, Failure>)
    requires t.Valid() && StateValid(t.text, Snapshot(t, h))
    modifies t, h
    ensures t.Valid() && h.released == old(h.released)
    ensures ParseMapF(t.text, old(Snapshot(t, h))) == Outcome(r, Snapshot(t, h))
    decreases |t.text| - t.cpos, 4
  {
    ghost var goal := ParseMapLoopF(t.text, Snapshot(t, h), NewMap());
    ghost var start := t.cpos;
    var m := NewMap();
    while true
      invariant t.Valid() && StateValid(t.text, Snapshot(t, h)) && MapBelow(m, |h.nodes|)
      invariant start <= t.cpos && h.released == old(h.released)
      invariant ParseMapLoopF(t.text, Snapshot(t, h), m) == goal
      decreases |t.text| - t.cpos
    {
      var head := MapRoundHead(t, h, m);
      if head.Err? {
        return Err(head.error);
      }
      var entry := MapRoundRest(t, h, m);
      if entry.Err? {
        return Err(entry.error);
      }
      if entry.value.None? {
        break;
      }
      var (key, v) := entry.value.value;
      m := MapAdd(m, key, v);
    }
    var id := h.Alloc(MapValue(m));
    return Ok(id);
  }

  /**
   * A NULL value in `parse_seq`, on the current token: `true` to go on after
   * a comma, `false` at the end of the sequence.
   */
  method SeqNull(t: Tokenizer, h: NodeHeap, ghost st: PState, ghost sq: Sequence, loops: nat) returns (r: Result<bool, Failure>)
    requires t.Valid() && Extends(t.text, st, Snapshot(t, h)) && SeqBelow(sq, |h.nodes|)
    requires t.cpos == st.cur.cpos ==> t.curToken.kind == Eof || t.curToken.kind == Unknown
    ensures r.Ok? && r.value ==> st.cur.cpos < t.cpos
    ensures SeqNullF(t.text, st, Snapshot(t, h), sq, loops)
            == if r.Err? then Err(r.error)
               else if r.value then ParseSeqLoopF(t.text, Snapshot(t, h), sq, loops + 1)
               else Ok((sq, Snapshot(t, h)))
  {
    var token := t.PeekToken();
    if token.kind == Comma {
      if loops != 0 {
        return Err(Unexpected(token, TokenKindToString(Comma), ExpectedValue));
      }
      return Ok(true);
    }
    if token.kind == Eof || token.kind == CloseSeq {
      return Ok(false);
    }
    return Err(Unexpected(token, TokenKindToString(token.kind), TokenKindToString(CloseSeq)));
  }

  /** `parse_seq`: values up to `]` or the end, with `loop_c` counting commas, then the sequence node. */
  method ParseSeq(t: Tokenizer, h: NodeHeap) returns (r: Result<NodeId, Failure>)
    requires t.Valid() && StateValid(t.text, Snapshot(t, h))
    modifies t, h
    ensures t.Valid() && h.released == old(h.released)
    ensures ParseSeqF(t.text, old(Snapshot(t, h))) == Outcome(r, Snapshot(t, h))
    decreases |t.text| - t.cpos, 3
  {
    ghost var goal := ParseSeqLoopF(t.text, Snapshot(t, h), NewSequence(), 0);
    ghost var start := t.cpos;
    var sq := NewSequence();
    var loops: nat := 0;
    while true
      invariant t.Valid() && StateValid(t.text, Snapshot(t, h)) && SeqBelow(sq, |h.nodes|)
      invariant start <= t.cpos && h.released == old(h.released)
      invariant ParseSeqLoopF(t.text, Snapshot(t, h), sq, loops) == goal
      decreases |t.text| - t.cpos
    {
      ghost var st := Snapshot(t, h);
      var item := ParseValue(t, h);
      if item.Err? {
        return Err(item.error);
      }
      if item.value.Some? {
        SequenceAddBelow(sq, item.value.value, |st.nodes|, |h.nodes|);
        loops := 0;
        sq := SequenceAdd(sq, item.value.value);
        continue;
      }
      var more := SeqNull(t, h, st, sq, loops);
      if more.Err? {
        return Err(more.error);
      }
      if !more.value {
        break;
      }
      loops := loops + 1;
    }
    var id := h.Alloc(SequenceValue(sq));
    return Ok(id);
  }

  /** `parse_yaml`: a fresh tokenizer and heap, the root map, and the end-of-input test. */
  method ParseYaml(input: seq<byte>) returns (r: Result<(NodeId, seq<Node>), Failure>)
    requires NulFree(input)
    ensures r == ParseYamlF(input)
  {
    var t := new Tokenizer.Init(input);
    var h := new NodeHeap();
    assert Snapshot(t, h) == InitialState();
    var root := ParseMap(t, h);
    if root.Err? {
      return Err(root.error);
    }
    if t.PeekChar() != NUL {
      return Err(ParserError(YamlError(UnexpectedToken, TokenKindToString(Key), TokenKindToString(t.curToken.kind),
                                       t.cpos - 1, t.curToken.length)));
    }
    return Ok((root.value, h.nodes));
  }

  // ----- lookup -----

  /** The value of the first entry at or after `i` whose key is `key`. */
  function MapLookup(entries: seq<MapEntry>, key: seq<byte>, i: nat): (r: Option<NodeId>)
    requires i <= |entries|
    ensures r.None? <==> forall k :: i <= k < |entries| ==> entries[k].key != key
    ensures r.Some? ==> exists k :: i <= k < |entries| && entries[k] == MapEntry(key, r.value) &&
                                    forall j :: i <= j < k ==> entries[j].key != key
    decreases |entries| - i
  {
    if i == |entries| then None
    else if entries[i].key == key then Some(entries[i].val)
    else MapLookup(entries, key, i + 1)
  }

  /** What `map_get_node` answers: NULL for NULL or a node that is not a map, else the first match. */
  function MapGetNodeF(nodes: seq<Node>, node: Option<NodeId>, key: seq<byte>): (r: Option<NodeId>)
    requires node.Some? ==> node.value < |nodes|
    ensures (node.None? || !nodes[node.value].value.MapValue?) ==> r.None?
  {
    if node.None? || !nodes[node.value].value.MapValue? then None
    else MapLookup(nodes[node.value].value.m.entries, key, 0)
  }

  /** `map_get_node`: the kind check, then a scan of the entries in order. */
  method MapGetNode(h: NodeHeap, node: Option<NodeId>, key: seq<byte>) returns (r: Option<NodeId>)
    requires node.Some? ==> node.value < |h.nodes|
    ensures r == MapGetNodeF(h.nodes, node, key)
  {
    if node.None? || !h.nodes[node.value].value.MapValue? {
      return None;
    }
    var entries := h.nodes[node.value].value.m.entries;
    var i := 0;
    while i < |entries|
      invariant 0 <= i <= |entries|
      invariant MapLookup(entries, key, i) == MapLookup(entries, key, 0)
    {
      if entries[i].key == key {
        return Some(entries[i].val);
      }
      i := i + 1;
    }
    return None;
  }

  /** A map node answers `map_get_node` with the value of its first entry with that key, and only then. */
  lemma MapGetNodeFirst(nodes: seq<Node>, id: NodeId, key: seq<byte>)
    requires id < |nodes| && nodes[id].value.MapValue?
    ensures var es := nodes[id].value.m.entries;
            (MapGetNodeF(nodes, Some(id), key).None? <==> forall k :: 0 <= k < |es| ==> es[k].key != key) &&
            forall k :: 0 <= k < |es| && es[k].key == key && (forall j :: 0 <= j < k ==> es[j].key != key) ==>
              MapGetNodeF(nodes, Some(id), key) == Some(es[k].val)
  {
    var es := nodes[id].value.m.entries;
    forall k | 0 <= k < |es| && es[k].key == key && (forall j :: 0 <= j < k ==> es[j].key != key)
      ensures MapGetNodeF(nodes, Some(id), key) == Some(es[k].val)
    {
      var r := MapLookup(es, key, 0);
      var k' :| 0 <= k' < |es| && es[k'] == MapEntry(key, r.value) && forall j :: 0 <= j < k' ==> es[j].key != key;
      assert k' == k;
    }
  }

  // ----- releasing -----

  /**
   * `free_node` on a heap: a node referenced more than once loses one
   * reference; otherwise its children are released in order and then the
   * node itself.  The result is the new heap and the new released set.
   */
  function Release(nodes: seq<Node>, released: set<NodeId>, id: NodeId): (r: (seq<Node>, set<NodeId>))
    requires HeapValid(nodes) && id < |nodes|
    ensures |r.0| == |nodes| && HeapValid(r.0) && forall i :: 0 <= i < |nodes| ==> r.0[i].value == nodes[i].value
    ensures forall i :: id < i < |nodes| ==> r.0[i] == nodes[i]
    ensures released <= r.1 && forall i :: i in r.1 && i !in released ==> i <= id
    decreases id, 1
  {
    if nodes[id].rcount > 1 then (nodes[id := nodes[id].(rcount := nodes[id].rcount - 1)], released)
    else
      var kids := nodes[id].value.Children();
      assert forall k :: 0 <= k < |kids| ==> kids[k] < id;
      var (ns, rel) := ReleaseEach(nodes, released, kids, 0, id);
      (ns, rel + {id})
  }

  /** The loop of `free_node` over a map's values or a sequence's items, from the `i`th. */
  function ReleaseEach(nodes: seq<Node>, released: set<NodeId>, kids: seq<NodeId>, i: nat, bound: nat): (r: (seq<Node>, set<NodeId>))
    requires HeapValid(nodes) && i <= |kids| && bound <= |nodes| && forall k :: 0 <= k < |kids| ==> kids[k] < bound
    ensures |r.0| == |nodes| && HeapValid(r.0) && forall j :: 0 <= j < |nodes| ==> r.0[j].value == nodes[j].value
    ensures forall j :: bound <= j < |nodes| ==> r.0[j] == nodes[j]
    ensures released <= r.1 && forall j :: j in r.1 && j !in released ==> j < bound
    decreases bound, 0, |kids| - i
  {
    if i == |kids| then (nodes, released)
    else
      var (ns, rel) := Release(nodes, released, kids[i]);
      ReleaseEach(ns, rel, kids, i + 1, bound)
  }

  /** `free_node`: nothing for NULL; otherwise the reference count decides. */
  method FreeNode(h: NodeHeap, node: Option<NodeId>)
    requires HeapValid(h.nodes) && (node.Some? ==> node.value < |h.nodes|)
    modifies h
    ensures node.None? ==> h.nodes == old(h.nodes) && h.released == old(h.released)
    ensures node.Some? ==> (h.nodes, h.released) == Release(old(h.nodes), old(h.released), node.value)
    decreases if node.Some? then node.value + 1 else 0
  {
    if node.None? {
      return;
    }
    var id := node.value;
    if h.nodes[id].rcount > 1 {
      h.nodes := h.nodes[id := h.nodes[id].(rcount := h.nodes[id].rcount - 1)];
      return;
    }
    var kids := h.nodes[id].value.Children();
    assert forall k :: 0 <= k < |kids| ==> kids[k] < id;
    ghost var goal := ReleaseEach(h.nodes, h.released, kids, 0, id);
    var i := 0;
    while i < |kids|
      invariant 0 <= i <= |kids| && HeapValid(h.nodes) && id < |h.nodes|
      invariant ReleaseEach(h.nodes, h.released, kids, i, id) == goal
    {
      FreeNode(h, Some(kids[i]));
      i := i + 1;
    }
    h.released := h.released + {id};
  }

  /** A reference `*alias` added and then freed leaves the heap as it was. */
  lemma RetainRelease(nodes: seq<Node>, released: set<NodeId>, id: NodeId)
    requires HeapValid(nodes) && id < |nodes| && nodes[id].rcount >= 1
    ensures var retained := nodes[id := nodes[id].(rcount := nodes[id].rcount + 1)];
            HeapValid(retained) && Release(retained, released, id) == (nodes, released)
  {
    var retained := nodes[id := nodes[id].(rcount := nodes[id].rcount + 1)];
    assert forall i :: 0 <= i < |nodes| ==> retained[i].value == nodes[i].value;
    assert retained[id := retained[id].(rcount := retained[id].rcount - 1)] == nodes;
  }

  /** Freeing a node referenced more than once releases nothing and changes only its count. */
  lemma ReleaseShared(nodes: seq<Node>, released: set<NodeId>, id: NodeId)
    requires HeapValid(nodes) && id < |nodes| && nodes[id].rcount > 1
    ensures var (ns, rel) := Release(nodes, released, id);
            rel == released && ns[id].rcount == nodes[id].rcount - 1 &&
            forall i :: 0 <= i < |nodes| && i != id ==> ns[i] == nodes[i]
  {
  }

  /** Freeing a node referenced once releases it, and nodes placed after it are untouched. */
  lemma ReleaseUnique(nodes: seq<Node>, released: set<NodeId>, id: NodeId)
    requires HeapValid(nodes) && id < |nodes| && nodes[id].rcount <= 1
    ensures var (ns, rel) := Release(nodes, released, id);
            id in rel && released <= rel && forall i :: id < i < |nodes| ==> ns[i] == nodes[i]
  {
  }
}

/**
 * The tree builder of yaml.c: recursive descent over the tokens, building
 * nodes in a heap and binding anchors in the tokenizer's alias table.
 *
 * A `Node *` is a `NodeId`, an index into the heap `nodes`.  A node is
 * placed in the heap once its payload is complete, so the nodes a map or
 * sequence holds always sit at smaller indices than the map or sequence.
 *
 * `ParseValueF`, `ParseMapF`, `ParseSeqF` and `ParseYamlF` say what
 * `parse_value`, `parse_map`, `parse_seq` and `parse_yaml` compute; the
 * methods at the end do the same over a `Tokenizer` and a `NodeHeap` and are
 * proved to agree with them.
 */
module Parser {
  import opened Bytes
  import opened Wrappers
  import opened YamlTypes
  import opened Tokenizers

  /** What the parse functions thread along: the cursor, `cur_token`, the alias table and the heap. */
  datatype PState = PState(cur: Cursor, tok: Token, aliases: seq<YamlAlias>, nodes: seq<Node>)

  // ----- well-formed states -----

  /** Every node a payload refers to is below `n`. */
  ghost predicate ValueBelow(v: Value, n: nat)
  {
    match v
    case MapValue(m) => forall k :: 0 <= k < |m.entries| ==> m.entries[k].val < n
    case SequenceValue(s) => forall k :: 0 <= k < |s.items| ==> s.items[k] < n
    case _ => true
  }

  /** Maps and sequences in the heap hold nodes placed before them, and no more than their capacity. */
  ghost predicate HeapValid(nodes: seq<Node>)
  {
    forall i :: 0 <= i < |nodes| ==> ValueBelow(nodes[i].value, i) && PayloadValid(nodes[i].value)
  }

  /** A map or sequence within its capacity, which is what `map_add` or `sequence_add` grew it to. */
  ghost predicate PayloadValid(v: Value)
  {
    match v
    case MapValue(m) => m.Valid() && m.capacity == CapacityAfter(m.Size())
    case SequenceValue(s) => s.Valid() && s.capacity == CapacityAfter(s.Size())
    case _ => true
  }

  /** Alias targets are nodes of the heap. */
  ghost predicate AliasesBelow(aliases: seq<YamlAlias>, n: nat)
  {
    forall k :: 0 <= k < |aliases| && aliases[k].value.Some? ==> aliases[k].value.value < n
  }

  /** The slice of a token lies in the input; quoted, anchor and alias tokens hold at least two bytes. */
  ghost predicate TokenInText(text: seq<byte>, t: Token)
  {
    t.start + t.length <= |text| &&
    ((t.kind == String || t.kind == StringLit || t.kind == Anchor || t.kind == TokenKind.Alias) ==> t.length >= 2)
  }

  ghost predicate StateValid(text: seq<byte>, st: PState)
  {
    st.cur.cpos <= |text| && TokenInText(text, st.tok) && HeapValid(st.nodes) && AliasesBelow(st.aliases, |st.nodes|)
  }

  /**
   * What parsing may do to a state: move the cursor forward, append to the
   * alias table, and add nodes; nodes already there keep their payload (only
   * their `rcount` may change).
   */
  ghost predicate Grows(st: PState, st': PState)
  {
    st.cur.cpos <= st'.cur.cpos &&
    |st.aliases| <= |st'.aliases| && st'.aliases[..|st.aliases|] == st.aliases &&
    |st.nodes| <= |st'.nodes| && (forall i :: 0 <= i < |st.nodes| ==> st'.nodes[i].value == st.nodes[i].value)
  }

  /** `st'` is a valid state `st` grew into. */
  ghost predicate Extends(text: seq<byte>, st: PState, st': PState)
  {
    StateValid(text, st') && Grows(st, st')
  }

  /** A value's node, if any, is in the heap of `st`. */
  ghost predicate NodeIn(v: Option<NodeId>, st: PState)
  {
    v.Some? ==> v.value < |st.nodes|
  }

  /** `id` is the node placed last. */
  ghost predicate LastNode(id: NodeId, st: PState)
  {
    id == |st.nodes| - 1
  }

  /** A parse that leaves the cursor where it was found no value, only the end or an unknown byte. */
  ghost predicate Moves(st: PState, r: (Option<NodeId>, PState))
  {
    r.1.cur.cpos == st.cur.cpos ==> r.0.None? && (r.1.tok.kind == Eof || r.1.tok.kind == Unknown)
  }

  /** A map whose entries hold nodes below `n`, within its capacity. */
  ghost predicate MapBelow(m: Map, n: nat)
  {
    PayloadValid(MapValue(m)) && ValueBelow(MapValue(m), n)
  }

  /** `m'` is `m` with entries appended. */
  ghost predicate MapExtends(m: Map, m': Map)
  {
    |m.entries| <= |m'.entries| && m'.entries[..|m.entries|] == m.entries
  }

  /** A sequence whose items are nodes below `n`, within its capacity. */
  ghost predicate SeqBelow(sq: Sequence, n: nat)
  {
    PayloadValid(SequenceValue(sq)) && ValueBelow(SequenceValue(sq), n)
  }

  /** `sq'` is `sq` with items appended. */
  ghost predicate SeqExtends(sq: Sequence, sq': Sequence)
  {
    |sq.items| <= |sq'.items| && sq'.items[..|sq.items|] == sq.items
  }

  /** `Grows` is transitive. */
  lemma GrowsTrans(a: PState, b: PState, c: PState)
    requires Grows(a, b) && Grows(b, c)
    ensures Grows(a, c)
  {
    assert c.aliases[..|a.aliases|] == c.aliases[..|b.aliases|][..|a.aliases|];
  }

  lemma ExtendsTrans(text: seq<byte>, a: PState, b: PState, c: PState)
    requires Grows(a, b) && Extends(text, b, c)
    ensures Extends(text, a, c)
  {
    GrowsTrans(a, b, c);
  }

  lemma MapExtendsTrans(a: Map, b: Map, c: Map)
    requires MapExtends(a, b) && MapExtends(b, c)
    ensures MapExtends(a, c)
  {
    assert c.entries[..|a.entries|] == c.entries[..|b.entries|][..|a.entries|];
  }

  lemma SeqExtendsTrans(a: Sequence, b: Sequence, c: Sequence)
    requires SeqExtends(a, b) && SeqExtends(b, c)
    ensures SeqExtends(a, c)
  {
    assert c.items[..|a.items|] == c.items[..|b.items|][..|a.items|];
  }

  /** An entry whose node is below `n` keeps a map below `n`, also past `n0 <= n`. */
  lemma MapAddBelow(m: Map, key: seq<byte>, v: NodeId, n0: nat, n: nat)
    requires MapBelow(m, n0) && n0 <= n && v < n
    ensures MapBelow(MapAdd(m, key, v), n) && MapExtends(m, MapAdd(m, key, v))
  {
    MapAddCapacity(m, key, v);
    var m1 := MapAdd(m, key, v);
    forall k | 0 <= k < |m1.entries| ensures m1.entries[k].val < n {
      if k < |m.entries| {
        assert m1.entries[k] == m.entries[k];
      }
    }
  }

  /** An item below `n` keeps a sequence below `n`, also past `n0 <= n`. */
  lemma SequenceAddBelow(sq: Sequence, v: NodeId, n0: nat, n: nat)
    requires SeqBelow(sq, n0) && n0 <= n && v < n
    ensures SeqBelow(SequenceAdd(sq, v), n) && SeqExtends(sq, SequenceAdd(sq, v))
  {
    SequenceAddCapacity(sq, v);
    var sq1 := SequenceAdd(sq, v);
    forall k | 0 <= k < |sq1.items| ensures sq1.items[k] < n {
      if k < |sq.items| {
        assert sq1.items[k] == sq.items[k];
      }
    }
  }

  /** Placing a complete node keeps the state valid; it is the last node of the heap. */
  lemma AllocValid(text: seq<byte>, st: PState, v: Value)
    requires StateValid(text, st) && ValueBelow(v, |st.nodes|) && PayloadValid(v)
    ensures var st' := Alloc(st, v);
              StateValid(text, st') && Grows(st, st') && st'.cur == st.cur && st'.tok == st.tok &&
              |st'.nodes| == |st.nodes| + 1 && st'.nodes[|st.nodes|] == CreateNode(v)
  {
    var st' := Alloc(st, v);
    assert st'.nodes[..|st.nodes|] == st.nodes;
  }

  // ----- the pieces -----

  /** `next_token` on the state: the token becomes `cur_token`. */
  function NextTok(text: seq<byte>, st: PState): (r: Result<PState, Failure>)
    requires NulFree(text) && st.cur.cpos <= |text|
    ensures r.Ok? ==> r.value.aliases == st.aliases && r.value.nodes == st.nodes
    ensures r.Ok? ==> Progress(text, st.cur, (r.value.tok, r.value.cur)) && TokenInText(text, r.value.tok)
  {
    match NextTokenF(text, st.cur, TagNull, 1)
    case Err(e) => Err(e)
    case Ok((t, c)) => Ok(st.(cur := c, tok := t))
  }

  /** `create_node` with its payload filled in: the node is placed at the end of the heap. */
  function Alloc(st: PState, v: Value): (r: PState)
  {
    st.(nodes := st.nodes + [CreateNode(v)])
  }

  /** The name an anchor or alias token is looked up by: its slice with the first byte made `*`. */
  function AliasName(text: seq<byte>, t: Token): (r: seq<byte>)
    requires 1 <= t.length && t.start + t.length <= |text|
    ensures |r| == t.length && r[0] == '*' && r[1..] == text[t.start + 1..t.start + t.length]
  {
    "*" + text[t.start + 1..t.start + t.length]
  }

  /** The index of the first alias at or after `i` named `name`. */
  function FindAlias(aliases: seq<YamlAlias>, name: seq<byte>, i: nat): (r: Option<nat>)
    requires i <= |aliases|
    ensures r.Some? ==> i <= r.value < |aliases| && aliases[r.value].name == name
    ensures forall k :: i <= k < |aliases| && (r.None? || k < r.value) ==> aliases[k].name != name
    decreases |aliases| - i
  {
    if i == |aliases| then None
    else if aliases[i].name == name then Some(i)
    else FindAlias(aliases, name, i + 1)
  }

  /** `parse_alias`: the node bound to the first alias of that name; NULL when there is none (or it is bound to NULL). */
  function ParseAliasF(aliases: seq<YamlAlias>, name: seq<byte>): (r: Option<NodeId>)
    ensures r.Some? ==> exists k :: 0 <= k < |aliases| && aliases[k].name == name && aliases[k].value == r
  {
    if |aliases| == 0 then None
    else match FindAlias(aliases, name, 0)
      case None => None
      case Some(k) => aliases[k].value
  }

  // ----- the descent -----

  /** `parse_value`: the node of the next value, or NULL (`None`) when the next token starts none. */
  function ParseValueF(text: seq<byte>, st: PState): (r: Result<(Option<NodeId>, PState), Failure>)
    requires NulFree(text) && StateValid(text, st)
    ensures r.Ok? ==> Extends(text, st, r.value.1) && NodeIn(r.value.0, r.value.1) && Moves(st, r.value)
    decreases |text| - st.cur.cpos, 1
  {
    match NextTok(text, st)
    case Err(e) => Err(e)
    case Ok(s1) =>
      var t := s1.tok;
      if t.kind == Anchor then ParseAnchorF(text, s1)
      else if t.kind == TokenKind.Alias then ParseAliasRefF(text, s1)
      else if t.kind == String || t.kind == StringLit || t.kind == Number || t.kind == Boolean then
        var v := ScalarValue(text, t);
        AllocValid(text, s1, v);
        Ok((Some(|s1.nodes|), Alloc(s1, v)))
      else ParseNestedF(text, st, s1)
  }

  /** The rest of `parse_value`: a map after `{`, a sequence after `[`, and NULL on any other token. */
  function ParseNestedF(text: seq<byte>, st: PState, s1: PState): (r: Result<(Option<NodeId>, PState), Failure>)
    requires NulFree(text) && Extends(text, st, s1) && Progress(text, st.cur, (s1.tok, s1.cur))
    ensures r.Ok? ==> Extends(text, st, r.value.1) && NodeIn(r.value.0, r.value.1) && Moves(st, r.value)
    decreases |text| - st.cur.cpos, 0
  {
    var t := s1.tok;
    if t.kind == OpenMap then
      match ParseMapF(text, s1)
      case Err(e) => Err(e)
      case Ok((id, s2)) => ExtendsTrans(text, st, s1, s2); Ok((Some(id), s2))
    else if t.kind == OpenSeq then
      match ParseSeqF(text, s1)
      case Err(e) => Err(e)
      case Ok((id, s2)) => ExtendsTrans(text, st, s1, s2); Ok((Some(id), s2))
    else Ok((None, s1))
  }

  /**
   * The node of a scalar token: `parse_string` keeps the token's value as it
   * is (no unescaping), `parse_number` its text, `parse_boolean` its length.
   */
  function ScalarValue(text: seq<byte>, t: Token): (r: Value)
    requires TokenInText(text, t) && (t.kind == String || t.kind == StringLit || t.kind == Number || t.kind == Boolean)
    ensures (t.kind == String || t.kind == StringLit) ==> r == StringValue(TokenValue(text, t))
    ensures t.kind == Number ==> r == NumberValue(text[t.start..t.start + t.length])
    ensures t.kind == Boolean ==> r == ParseBoolean(t)
  {
    if t.kind == String || t.kind == StringLit then StringValue(TokenValue(text, t))
    else if t.kind == Number then NumberValue(TokenValue(text, t))
    else ParseBoolean(t)
  }

  /** `parse_boolean`: `true` exactly when the token is four bytes long. */
  function ParseBoolean(t: Token): (r: Value)
    ensures r.BooleanValue? && (r.b <==> t.length == 4)
  {
    BooleanValue(t.length == 4)
  }

  /**
   * The anchor case: the value after the anchor is parsed first, then bound
   * to the anchor's name; a name already bound to a node is REDEFINED_ALIAS.
   */
  function ParseAnchorF(text: seq<byte>, s1: PState): (r: Result<(Option<NodeId>, PState), Failure>)
    requires NulFree(text) && StateValid(text, s1) && s1.tok.kind == Anchor
    ensures r.Ok? ==> Extends(text, s1, r.value.1) && NodeIn(r.value.0, r.value.1)
    decreases |text| - s1.cur.cpos, 2
  {
    var t := s1.tok;
    match ParseValueF(text, s1)
    case Err(e) => Err(e)
    case Ok((v, s2)) =>
      var name := AliasName(text, t);
      if |s2.aliases| > 0 && ParseAliasF(s2.aliases, name).Some? then
        Err(ParserError(YamlError(RedefinedAlias, "", name, t.start, t.length)))
      else Ok((v, s2.(aliases := s2.aliases + [YamlAlias(name, v)])))
  }

  /** The alias case: the bound node, one more reference to it; an unbound name is UNDEFINED_ALIAS. */
  function ParseAliasRefF(text: seq<byte>, s1: PState): (r: Result<(Option<NodeId>, PState), Failure>)
    requires StateValid(text, s1) && s1.tok.kind == TokenKind.Alias
    ensures r.Ok? ==> Extends(text, s1, r.value.1) && r.value.0.Some? && NodeIn(r.value.0, r.value.1)
  {
    var t := s1.tok;
    match ParseAliasF(s1.aliases, AliasName(text, t))
    case Some(id) =>
      Ok((Some(id), s1.(nodes := s1.nodes[id := s1.nodes[id].(rcount := s1.nodes[id].rcount + 1)])))
    case None => Err(ParserError(YamlError(UndefinedAlias, "", TokenValue(text, t), t.start, t.length)))
  }

  /** `parse_map` after its `{` (or at the top): a new map filled by the loop, then placed in the heap. */
  function ParseMapF(text: seq<byte>, st: PState): (r: Result<(NodeId, PState), Failure>)
    requires NulFree(text) && StateValid(text, st)
    ensures r.Ok? ==> (Extends(text, st, r.value.1) && LastNode(r.value.0, r.value.1) &&
              r.value.1.nodes[r.value.0].value.MapValue? &&
              (r.value.1.cur.cpos > st.cur.cpos || r.value.1.cur.cpos == |text|))
    decreases |text| - st.cur.cpos, 4
  {
    match ParseMapLoopF(text, st, NewMap())
    case Err(e) => Err(e)
    case Ok((m, s)) => Ok((|s.nodes|, Alloc(s, MapValue(m))))
  }

  /** The `while (true)` of `parse_map`: one round reads a key (or a comma first) and a value. */
  function ParseMapLoopF(text: seq<byte>, st: PState, m: Map): (r: Result<(Map, PState), Failure>)
    requires NulFree(text) && StateValid(text, st) && MapBelow(m, |st.nodes|)
    ensures r.Ok? ==> (Extends(text, st, r.value.1) && MapBelow(r.value.0, |r.value.1.nodes|) && MapExtends(m, r.value.0) &&
              (r.value.1.cur.cpos > st.cur.cpos || r.value.1.cur.cpos == |text|))
    decreases |text| - st.cur.cpos, 3
  {
    match NextTok(text, st)
    case Err(e) => Err(e)
    case Ok(s1) =>
      var t := s1.tok;
      if t.kind == Comma then MapCommaF(text, st, s1, m)
      else MapEntryF(text, s1, m)
  }

  /** A comma between entries of `parse_map`: the token after it, where a second comma is UNEXPECTED_TOKEN. */
  function MapCommaF(text: seq<byte>, st: PState, s1: PState, m: Map): (r: Result<(Map, PState), Failure>)
    requires NulFree(text) && s1.cur.cpos > st.cur.cpos && Extends(text, st, s1) && MapBelow(m, |s1.nodes|)
    requires s1.tok.kind == Comma
    ensures r.Ok? ==> (Extends(text, st, r.value.1) && MapBelow(r.value.0, |r.value.1.nodes|) && MapExtends(m, r.value.0) &&
              r.value.1.cur.cpos > st.cur.cpos)
    decreases |text| - st.cur.cpos, 2
  {
    match NextTok(text, s1)
    case Err(e) => Err(e)
    case Ok(s2) =>
      if s2.tok.kind == Comma then Err(Unexpected(s1.tok, TokenKindToString(Comma), ExpectedKey))
      else
        var r := MapEntryF(text, s2, m);
        if r.Err? then r else ExtendsTrans(text, st, s2, r.value.1); r
  }

  /**
   * The rest of a round of `parse_map`, on the current token: the end of the
   * map, a key, or UNEXPECTED_TOKEN.
   */
  function MapEntryF(text: seq<byte>, s: PState, m: Map): (r: Result<(Map, PState), Failure>)
    requires NulFree(text) && StateValid(text, s) && MapBelow(m, |s.nodes|)
    ensures r.Ok? ==> (Extends(text, s, r.value.1) && MapBelow(r.value.0, |r.value.1.nodes|) && MapExtends(m, r.value.0) &&
              (r.value.1.cur.cpos > s.cur.cpos || (r.value == (m, s) && (s.tok.kind == Eof || s.tok.kind == CloseMap))))
    decreases |text| - s.cur.cpos, 2
  {
    var t := s.tok;
    if t.kind == Eof || t.kind == CloseMap then Ok((m, s))
    else if t.kind == Key then MapKeyF(text, s, m)
    else Err(Unexpected(t, TokenKindToString(t.kind), TokenKindToString(CloseMap)))
  }

  /** A key: its colon and value; a NULL value ends the map, any other is added under the key. */
  function MapKeyF(text: seq<byte>, s: PState, m: Map): (r: Result<(Map, PState), Failure>)
    requires NulFree(text) && StateValid(text, s) && MapBelow(m, |s.nodes|)
    requires s.tok.kind == Key
    ensures r.Ok? ==> (Extends(text, s, r.value.1) && MapBelow(r.value.0, |r.value.1.nodes|) && MapExtends(m, r.value.0) &&
              r.value.1.cur.cpos > s.cur.cpos)
    decreases |text| - s.cur.cpos, 1
  {
    match KeyValueF(text, s)
    case Err(e) => Err(e)
    case Ok((None, s3)) => Ok((m, s3))
    case Ok((Some(v), s3)) =>
      var key := TokenValue(text, s.tok);
      var m1 := MapAdd(m, key, v);
      MapAddBelow(m, key, v, |s.nodes|, |s3.nodes|);
      var r := ParseMapLoopF(text, s3, m1);
      if r.Err? then r else ExtendsTrans(text, s, s3, r.value.1); MapExtendsTrans(m, m1, r.value.0); r
  }

  /** What follows a key: a colon, else UNEXPECTED_TOKEN, and then a value. */
  function KeyValueF(text: seq<byte>, s: PState): (r: Result<(Option<NodeId>, PState), Failure>)
    requires NulFree(text) && StateValid(text, s) && s.tok.kind == Key
    ensures r.Ok? ==> Extends(text, s, r.value.1) && NodeIn(r.value.0, r.value.1) && r.value.1.cur.cpos > s.cur.cpos
    decreases |text| - s.cur.cpos, 0
  {
    match NextTok(text, s)
    case Err(e) => Err(e)
    case Ok(s2) =>
      if s2.tok.kind != Colon then Err(Unexpected(s2.tok, TokenKindToString(s2.tok.kind), TokenKindToString(Colon)))
      else
        var r := ParseValueF(text, s2);
        if r.Err? then r else ExtendsTrans(text, s, s2, r.value.1); r
  }

  /** `parse_seq` after its `[`: a new sequence filled by the loop, then placed in the heap. */
  function ParseSeqF(text: seq<byte>, st: PState): (r: Result<(NodeId, PState), Failure>)
    requires NulFree(text) && StateValid(text, st)
    ensures r.Ok? ==> (Extends(text, st, r.value.1) && LastNode(r.value.0, r.value.1) &&
              r.value.1.nodes[r.value.0].value.SequenceValue?)
    decreases |text| - st.cur.cpos, 3
  {
    match ParseSeqLoopF(text, st, NewSequence(), 0)
    case Err(e) => Err(e)
    case Ok((s, st')) => Ok((|st'.nodes|, Alloc(st', SequenceValue(s))))
  }

  /**
   * The `while (true)` of `parse_seq`: a value is appended, and the loop goes
   * on; a NULL value goes to `SeqNullF`.
   */
  function ParseSeqLoopF(text: seq<byte>, st: PState, sq: Sequence, loops: nat): (r: Result<(Sequence, PState), Failure>)
    requires NulFree(text) && StateValid(text, st) && SeqBelow(sq, |st.nodes|)
    ensures r.Ok? ==> Extends(text, st, r.value.1) && SeqBelow(r.value.0, |r.value.1.nodes|) && SeqExtends(sq, r.value.0)
    decreases |text| - st.cur.cpos, 2
  {
    match ParseValueF(text, st)
    case Err(e) => Err(e)
    case Ok((Some(v), s1)) =>
      var sq1 := SequenceAdd(sq, v);
      SequenceAddBelow(sq, v, |st.nodes|, |s1.nodes|);
      var r := ParseSeqLoopF(text, s1, sq1, 0);
      if r.Err? then r else ExtendsTrans(text, st, s1, r.value.1); SeqExtendsTrans(sq, sq1, r.value.0); r
    case Ok((None, s1)) => SeqNullF(text, st, s1, sq, loops)
  }

  /**
   * A NULL value in `parse_seq`: fine on a comma unless a comma came just
   * before (`loops`, the `loop_c` counter), the end of the sequence at `]`
   * or the end of the input, and UNEXPECTED_TOKEN otherwise.
   */
  function SeqNullF(text: seq<byte>, st: PState, s1: PState, sq: Sequence, loops: nat): (r: Result<(Sequence, PState), Failure>)
    requires NulFree(text) && Extends(text, st, s1) && SeqBelow(sq, |s1.nodes|)
    requires s1.cur.cpos == st.cur.cpos ==> s1.tok.kind == Eof || s1.tok.kind == Unknown
    ensures r.Ok? ==> Extends(text, st, r.value.1) && SeqBelow(r.value.0, |r.value.1.nodes|) && SeqExtends(sq, r.value.0)
    decreases |text| - st.cur.cpos, 0
  {
    var t := s1.tok;
    if t.kind == Comma then
      if loops != 0 then Err(Unexpected(t, TokenKindToString(Comma), ExpectedValue))
      else
        var r := ParseSeqLoopF(text, s1, sq, loops + 1);
        if r.Err? then r else ExtendsTrans(text, st, s1, r.value.1); r
    else if t.kind == Eof || t.kind == CloseSeq then
      assert sq.items[..|sq.items|] == sq.items;
      Ok((sq, s1))
    else Err(Unexpected(t, TokenKindToString(t.kind), TokenKindToString(CloseSeq)))
  }

  /** The state `parse_yaml` starts from. */
  function InitialState(): PState
  {
    PState(Cursor(0, 1, 1), Token(Unknown, 0, 0, 0, 0), [], [])
  }

  /**
   * `parse_yaml`: the root map, read as `parse_map` reads a map's body, and
   * UNEXPECTED_TOKEN if the input goes on after it.  The result is the
   * root's address and the heap.
   */
  function ParseYamlF(text: seq<byte>): (r: Result<(NodeId, seq<Node>), Failure>)
    requires NulFree(text)
    ensures r.Ok? ==> HeapValid(r.value.1) && r.value.0 == |r.value.1| - 1 && r.value.1[r.value.0].value.MapValue?
  {
    match ParseMapF(text, InitialState())
    case Err(e) => Err(e)
    case Ok((root, s)) =>
      if At(text, s.cur.cpos) != NUL then
        Err(ParserError(YamlError(UnexpectedToken, TokenKindToString(Key), TokenKindToString(s.tok.kind),
                                  s.cur.cpos - 1, s.tok.length)))
      else Ok((root, s.nodes))
  }

  // ----- properties -----

  /**
   * `parse_yaml` succeeds exactly when the root map ends at the terminator,
   * and otherwise reports UNEXPECTED_TOKEN where a key was expected.
   */
  lemma ParseYamlEndsAtNul(text: seq<byte>)
    requires NulFree(text) && ParseMapF(text, InitialState()).Ok?
    ensures var (root, s) := ParseMapF(text, InitialState()).value;
            (ParseYamlF(text).Ok? <==> s.cur.cpos == |text|) &&
            (ParseYamlF(text).Ok? ==> ParseYamlF(text).value == (root, s.nodes)) &&
            (s.cur.cpos < |text| ==>
               ParseYamlF(text) == Err(ParserError(YamlError(UnexpectedToken, TokenKindToString(Key),
                                                             TokenKindToString(s.tok.kind), s.cur.cpos - 1, s.tok.length))))
  {
    var (root, s) := ParseMapF(text, InitialState()).value;
    if s.cur.cpos < |text| {
      assert text[s.cur.cpos] != NUL;
    }
  }

  /** The first binding of a name decides what `parse_alias` answers, whatever is appended later. */
  lemma {:induction false} FirstBindingWins(aliases: seq<YamlAlias>, later: seq<YamlAlias>, name: seq<byte>, k: nat)
    requires k < |aliases| && aliases[k].name == name && forall j :: 0 <= j < k ==> aliases[j].name != name
    ensures ParseAliasF(aliases + later, name) == aliases[k].value
  {
    var all := aliases + later;
    assert all[k] == aliases[k];
    forall j | 0 <= j < k
      ensures all[j].name != name
    {
      assert all[j] == aliases[j];
    }
  }

  /**
   * `&name value` binds the name to the value's node: when the name was not
   * bound before, every later `parse_alias` of it, from any state the parse
   * grows into, answers that node.
   */
  lemma AnchorBinds(text: seq<byte>, s1: PState, s: PState)
    requires NulFree(text) && StateValid(text, s1) && s1.tok.kind == Anchor
    requires ParseAnchorF(text, s1).Ok? && Grows(ParseAnchorF(text, s1).value.1, s)
    requires var s2 := ParseAnchorF(text, s1).value.1;
             forall j :: 0 <= j < |s2.aliases| - 1 ==> s2.aliases[j].name != AliasName(text, s1.tok)
    ensures ParseAliasF(s.aliases, AliasName(text, s1.tok)) == ParseAnchorF(text, s1).value.0
  {
    var (v, s2) := ParseAnchorF(text, s1).value;
    var name := AliasName(text, s1.tok);
    var (_, mid) := ParseValueF(text, s1).value;
    assert s2.aliases == mid.aliases + [YamlAlias(name, v)];
    var k := |s2.aliases| - 1;
    assert s.aliases == s2.aliases + s.aliases[|s2.aliases|..];
    FirstBindingWins(s2.aliases, s.aliases[|s2.aliases|..], name, k);
  }

  /**
   * The redefinition check asks `parse_alias`, which cannot tell a name bound
   * to NULL from an unbound one: an anchor whose first binding holds no node
   * may be bound again without REDEFINED_ALIAS, and the name still resolves
   * to NULL.
   */
  lemma AnchorOnNullRebinds(text: seq<byte>, s1: PState, k: nat)
    requires NulFree(text) && StateValid(text, s1) && s1.tok.kind == Anchor && ParseValueF(text, s1).Ok?
    requires k < |s1.aliases| && s1.aliases[k] == YamlAlias(AliasName(text, s1.tok), None)
    requires forall j :: 0 <= j < k ==> s1.aliases[j].name != AliasName(text, s1.tok)
    ensures ParseAnchorF(text, s1).Ok?
    ensures ParseAliasF(ParseAnchorF(text, s1).value.1.aliases, AliasName(text, s1.tok)).None?
  {
    var name := AliasName(text, s1.tok);
    var (v, mid) := ParseValueF(text, s1).value;
    var later := mid.aliases[|s1.aliases|..];
    assert mid.aliases == s1.aliases + later;
    FirstBindingWins(s1.aliases, later, name, k);
    var s2 := mid.(aliases := mid.aliases + [YamlAlias(name, v)]);
    assert ParseAnchorF(text, s1) == Ok((v, s2));
    assert s2.aliases == s1.aliases + (later + [YamlAlias(name, v)]);
    FirstBindingWins(s1.aliases, later + [YamlAlias(name, v)], name, k);
  }

  /** `*name` bound to a node gives that very node, with one more reference, and changes nothing else. */
  lemma AliasIdentity(text: seq<byte>, s1: PState, id: NodeId)
    requires StateValid(text, s1) && s1.tok.kind == TokenKind.Alias
    requires ParseAliasF(s1.aliases, AliasName(text, s1.tok)) == Some(id)
    ensures ParseAliasRefF(text, s1).Ok?
    ensures var (v, s2) := ParseAliasRefF(text, s1).value;
            v == Some(id) && s2.cur == s1.cur && s2.tok == s1.tok && s2.aliases == s1.aliases &&
            |s2.nodes| == |s1.nodes| && s2.nodes[id] == s1.nodes[id].(rcount := s1.nodes[id].rcount + 1) &&
            forall i :: 0 <= i < |s1.nodes| && i != id ==> s2.nodes[i] == s1.nodes[i]
  {
  }

  /** `*name` with no node bound to the name is UNDEFINED_ALIAS on the alias token, whose value names it. */
  lemma UndefinedAliasError(text: seq<byte>, st: PState)
    requires NulFree(text) && StateValid(text, st)
    requires NextTok(text, st).Ok? && NextTok(text, st).value.tok.kind == TokenKind.Alias
    requires var s1 := NextTok(text, st).value; ParseAliasF(s1.aliases, AliasName(text, s1.tok)).None?
    ensures var t := NextTok(text, st).value.tok;
            ParseValueF(text, st) == Err(ParserError(YamlError(YamlErrorKind.UndefinedAlias, "", TokenValue(text, t), t.start, t.length)))
  {
  }

  /** `&name` when the name is already bound to a node is REDEFINED_ALIAS, after the value was read. */
  lemma RedefinedAliasError(text: seq<byte>, st: PState)
    requires NulFree(text) && StateValid(text, st)
    requires NextTok(text, st).Ok? && NextTok(text, st).value.tok.kind == Anchor
    requires var s1 := NextTok(text, st).value;
             ParseValueF(text, s1).Ok? && ParseAliasF(ParseValueF(text, s1).value.1.aliases, AliasName(text, s1.tok)).Some?
    ensures var t := NextTok(text, st).value.tok;
            ParseValueF(text, st) == Err(ParserError(YamlError(YamlErrorKind.RedefinedAlias, "", AliasName(text, t), t.start, t.length)))
  {
  }

  /** A key followed by anything but `:` is UNEXPECTED_TOKEN on that token, where the colon was expected. */
  lemma KeyWithoutColon(text: seq<byte>, s: PState, m: Map)
    requires NulFree(text) && StateValid(text, s) && MapBelow(m, |s.nodes|) && s.tok.kind == Key
    requires NextTok(text, s).Ok? && NextTok(text, s).value.tok.kind != Colon
    ensures var c := NextTok(text, s).value.tok;
            MapEntryF(text, s, m) == Err(Unexpected(c, TokenKindToString(c.kind), TokenKindToString(Colon)))
  {
    var c := NextTok(text, s).value.tok;
    assert KeyValueF(text, s) == Err(Unexpected(c, TokenKindToString(c.kind), TokenKindToString(Colon)));
    assert MapEntryF(text, s, m) == MapKeyF(text, s, m);
  }

  /** The three bytes `a 1`. */
  predicate IsKeySpaceDigit(text: seq<byte>)
  {
    |text| == 3 && text[0] == 'a' && text[1] == ' ' && text[2] == '1'
  }

  lemma KeyThenNumberFirst(text: seq<byte>)
    requires IsKeySpaceDigit(text)
    ensures NulFree(text)
    ensures NextTok(text, InitialState()) == Ok(PState(Cursor(1, 1, 2), Token(Key, 0, 1, 1, 1), [], []))
  {
    var w := Cursor(0, 1, 1);
    assert SkipSpaces(text, w) == w;
    assert AfterWhitespace(text, w) == Ok(w);
    assert Step(text, w) == Cursor(1, 1, 2);
    assert ScanIdent(text, Cursor(1, 1, 2)) == Cursor(1, 1, 2);
    assert !IsBooleanText(text, 0, 1);
    var r := Ok((Token(Key, 0, 1, 1, 1), Cursor(1, 1, 2)));
    assert LexIdent(text, w, Cursor(1, 1, 2), TagNull) == r;
    assert LexDirect(text, w, TagNull) == r;
    assert Lex(text, w, TagNull, 1) == r;
    assert NextTokenF(text, w, TagNull, 1) == r;
  }

  lemma KeyThenNumberSecond(text: seq<byte>, s: PState)
    requires IsKeySpaceDigit(text) && s == PState(Cursor(1, 1, 2), Token(Key, 0, 1, 1, 1), [], [])
    ensures NulFree(text)
    ensures NextTok(text, s).Ok? && NextTok(text, s).value.tok == Token(Number, 2, 1, 1, 3)
  {
    var w := Cursor(2, 1, 3);
    assert SkipSpaces(text, w) == w;
    assert SkipSpaces(text, s.cur) == w;
    assert AfterWhitespace(text, s.cur) == Ok(w);
    assert Step(text, w) == Cursor(3, 1, 4);
    assert ScanNumber(text, Cursor(3, 1, 4)) == Cursor(3, 1, 4);
    var r := Ok((Token(Number, 2, 1, 1, 3), Cursor(3, 1, 4)));
    assert LexDirect(text, w, TagNull) == r;
    assert Lex(text, w, TagNull, 1) == r;
    assert NextTokenF(text, s.cur, TagNull, 1) == r;
  }

  /** `a 1`: the key `a` is followed by a number where its colon should be, UNEXPECTED_TOKEN at the `1`. */
  lemma KeyThenNumber(text: seq<byte>)
    requires IsKeySpaceDigit(text)
    ensures NulFree(text)
    ensures ParseYamlF(text) == Err(ParserError(YamlError(UnexpectedToken, "TOKEN_COLON", "TOKEN_NUMBER", 2, 1)))
  {
    KeyThenNumberFirst(text);
    var st := InitialState();
    var s := NextTok(text, st).value;
    KeyThenNumberSecond(text, s);
    var c := NextTok(text, s).value.tok;
    KeyWithoutColon(text, s, NewMap());
    assert TokenKindToString(Number) == "TOKEN_NUMBER" && TokenKindToString(Colon) == "TOKEN_COLON";
    assert ParseMapLoopF(text, st, NewMap()) == MapEntryF(text, s, NewMap());
  }

  /** The next token read from `st` has kind `k` and leaves the parser in `s1`. */
  predicate ReadsKind(text: seq<byte>, st: PState, s1: PState, k: TokenKind)
    requires NulFree(text) && st.cur.cpos <= |text|
    ensures ReadsKind(text, st, s1, k) ==> s1.cur.cpos <= |text|
  {
    NextTok(text, st) == Ok(s1) && s1.tok.kind == k
  }

  /** Two commas in a row between map entries are UNEXPECTED_TOKEN on the first, where a key was expected. */
  lemma MapDoubleComma(text: seq<byte>, st: PState, s1: PState, s2: PState, m: Map)
    requires NulFree(text) && StateValid(text, st) && MapBelow(m, |st.nodes|)
    requires ReadsKind(text, st, s1, Comma) && ReadsKind(text, s1, s2, Comma)
    ensures ParseMapLoopF(text, st, m) == Err(Unexpected(s1.tok, CommaName, ExpectedKey))
  {
  }

  /**
   * Two commas in a row in a sequence, after an item or at its start, are
   * UNEXPECTED_TOKEN on the second, where a value was expected.
   */
  lemma SeqDoubleComma(text: seq<byte>, st: PState, s1: PState, s2: PState, sq: Sequence)
    requires NulFree(text) && StateValid(text, st) && SeqBelow(sq, |st.nodes|)
    requires ReadsKind(text, st, s1, Comma) && ReadsKind(text, s1, s2, Comma)
    ensures ParseSeqLoopF(text, st, sq, 0) == Err(Unexpected(s2.tok, CommaName, ExpectedValue))
  {
    assert ParseValueF(text, st) == Ok((None, s1));
    assert ParseSeqLoopF(text, st, sq, 0) == ParseSeqLoopF(text, s1, sq, 1);
    SeqCommaAfterNull(text, s1, s2, sq);
  }

  /** A comma read where a value was expected, right after a null item, is UNEXPECTED_TOKEN. */
  lemma SeqCommaAfterNull(text: seq<byte>, s1: PState, s2: PState, sq: Sequence)
    requires NulFree(text) && StateValid(text, s1) && SeqBelow(sq, |s1.nodes|)
    requires ReadsKind(text, s1, s2, Comma)
    ensures ParseSeqLoopF(text, s1, sq, 1) == Err(Unexpected(s2.tok, CommaName, ExpectedValue))
  {
    assert ParseValueF(text, s1) == Ok((None, s2));
  }

  // ----- what the tree holds -----

  /**
   * `val` is what the scalar token `t` says: a Boolean is true exactly on the
   * text `true`, a quoted string is the slice between its two quotes, a
   * number is its slice.
   */
  ghost predicate HoldsScalar(text: seq<byte>, t: Token, val: Value)
  {
    t.start + t.length <= |text| && 1 <= t.length &&
    var slice := text[t.start..t.start + t.length];
    (t.kind == Boolean ==> val.BooleanValue? && (val.b <==> slice == "true")) &&
    ((t.kind == String || t.kind == StringLit) ==> val.StringValue? && [slice[0]] + val.str + [slice[0]] == slice) &&
    (t.kind == Number ==> val == NumberValue(slice))
  }

  /** The value a scalar token gets from `parse_string`, `parse_number` or `parse_boolean` is what its text says. */
  lemma ScalarMeaning(text: seq<byte>, t: Token, after: nat)
    requires TokenShape(text, t, after) && (t.kind == String || t.kind == StringLit || t.kind == Number || t.kind == Boolean)
    ensures TokenInText(text, t) && HoldsScalar(text, t, ScalarValue(text, t))
  {
    if t.kind == String || t.kind == StringLit {
      QuotedTokenValue(text, t, after);
    }
  }

  /** `parse_value` on a scalar token: a node new to the heap that holds what the token's text says. */
  lemma ParseValueScalar(text: seq<byte>, st: PState)
    requires NulFree(text) && StateValid(text, st) && NextTok(text, st).Ok?
    requires var k := NextTok(text, st).value.tok.kind; k == String || k == StringLit || k == Number || k == Boolean
    ensures var t := NextTok(text, st).value.tok; var r := ParseValueF(text, st);
              r.Ok? && r.value.0 == Some(|st.nodes|) && |st.nodes| < |r.value.1.nodes| &&
              HoldsScalar(text, t, r.value.1.nodes[|st.nodes|].value)
  {
    NextTokenShape(text, st.cur, TagNull, 1);
    var s1 := NextTok(text, st).value;
    ScalarMeaning(text, s1.tok, s1.cur.cpos);
  }

  /**
   * A round of `parse_map` on a key: the token after the key is a colon, the
   * value is parsed after it, and a value that is not NULL becomes the map's
   * next entry, under the key's text and with its node as parsed; a NULL
   * value ends the map with nothing added.
   */
  lemma MapKeyEntry(text: seq<byte>, s: PState, m: Map)
    requires NulFree(text) && StateValid(text, s) && MapBelow(m, |s.nodes|) && s.tok.kind == Key
    requires MapKeyF(text, s, m).Ok?
    ensures NextTok(text, s).Ok? && NextTok(text, s).value.tok.kind == Colon
    ensures var v := ParseValueF(text, NextTok(text, s).value); var r := MapKeyF(text, s, m).value;
              v.Ok? &&
              (v.value.0.None? ==> r == (m, v.value.1)) &&
              (v.value.0.Some? ==>
                 |m.entries| < |r.0.entries| && r.0.entries[|m.entries|] == MapEntry(TokenValue(text, s.tok), v.value.0.value) &&
                 v.value.0.value < |v.value.1.nodes| <= |r.1.nodes| &&
                 r.1.nodes[v.value.0.value].value == v.value.1.nodes[v.value.0.value].value)
  {
    var v := KeyValueF(text, s);
    if v.value.0.Some? {
      var key := TokenValue(text, s.tok);
      var m1 := MapAdd(m, key, v.value.0.value);
      MapAddBelow(m, key, v.value.0.value, |s.nodes|, |v.value.1.nodes|);
      var r := ParseMapLoopF(text, v.value.1, m1);
      assert r.value.0.entries[..|m1.entries|] == m1.entries;
      assert r.value.0.entries[|m.entries|] == m1.entries[|m.entries|];
    }
  }

  /**
   * A round of `parse_seq`: a value that is not NULL becomes the sequence's
   * next item, with its node as parsed.
   */
  lemma SeqItemEntry(text: seq<byte>, st: PState, sq: Sequence, loops: nat)
    requires NulFree(text) && StateValid(text, st) && SeqBelow(sq, |st.nodes|)
    requires ParseSeqLoopF(text, st, sq, loops).Ok?
    ensures var v := ParseValueF(text, st); var r := ParseSeqLoopF(text, st, sq, loops).value;
              v.Ok? &&
              (v.value.0.Some? ==>
                 |sq.items| < |r.0.items| && r.0.items[|sq.items|] == v.value.0.value &&
                 v.value.0.value < |v.value.1.nodes| <= |r.1.nodes| &&
                 r.1.nodes[v.value.0.value].value == v.value.1.nodes[v.value.0.value].value)
  {
    var v := ParseValueF(text, st);
    if v.value.0.Some? {
      var sq1 := SequenceAdd(sq, v.value.0.value);
      SequenceAddBelow(sq, v.value.0.value, |st.nodes|, |v.value.1.nodes|);
      var r := ParseSeqLoopF(text, v.value.1, sq1, 0);
      assert r.value.0.items[..|sq1.items|] == sq1.items;
      assert r.value.0.items[|sq.items|] == sq1.items[|sq.items|];
    }
  }

  /**
   * `key: scalar` in a map: after the key and its colon, a scalar token
   * gives the map's next entry, under the key's text, whose node holds what
   * the scalar's text says.
   */
  lemma MapScalarEntry(text: seq<byte>, s: PState, m: Map)
    requires NulFree(text) && StateValid(text, s) && MapBelow(m, |s.nodes|) && s.tok.kind == Key
    requires MapKeyF(text, s, m).Ok?
    requires NextTok(text, s).Ok? && NextTok(text, NextTok(text, s).value).Ok?
    requires var k := NextTok(text, NextTok(text, s).value).value.tok.kind; k == String || k == StringLit || k == Number || k == Boolean
    ensures var r := MapKeyF(text, s, m).value; var e := |m.entries|;
              e < |r.0.entries| && r.0.entries[e].key == TokenValue(text, s.tok) && r.0.entries[e].val < |r.1.nodes| &&
              HoldsScalar(text, NextTok(text, NextTok(text, s).value).value.tok, r.1.nodes[r.0.entries[e].val].value)
  {
    MapKeyEntry(text, s, m);
    var s2 := NextTok(text, s).value;
    ParseValueScalar(text, s2);
  }

  /** `[scalar, ...]`: a scalar token gives the sequence's next item, whose node holds what the scalar's text says. */
  lemma SeqScalarItem(text: seq<byte>, st: PState, sq: Sequence, loops: nat)
    requires NulFree(text) && StateValid(text, st) && SeqBelow(sq, |st.nodes|)
    requires ParseSeqLoopF(text, st, sq, loops).Ok? && NextTok(text, st).Ok?
    requires var k := NextTok(text, st).value.tok.kind; k == String || k == StringLit || k == Number || k == Boolean
    ensures var r := ParseSeqLoopF(text, st, sq, loops).value; var i := |sq.items|;
              i < |r.0.items| && r.0.items[i] < |r.1.nodes| &&
              HoldsScalar(text, NextTok(text, st).value.tok, r.1.nodes[r.0.items[i]].value)
  {
    SeqItemEntry(text, st, sq, loops);
    ParseValueScalar(text, st);
  }
}

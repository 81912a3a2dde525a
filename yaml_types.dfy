/**
 * The vocabulary of the YAML reader (yaml.h): the special bytes, token and
 * error kinds with their name tables, tokens, errors, and the node values the
 * tree builder produces.  Nodes live in a heap and refer to each other by
 * index (`NodeId`), which is how sharing through aliases is represented.
 */
module YamlTypes {
  import opened Bytes
  import opened Wrappers
  import Toys

  // ----- YamlChar -----

  const CharEof: byte := '\0'
  const CharNewline: byte := '\n'
  const CharSpace: byte := ' '
  const CharTab: byte := '\t'
  const CharColon: byte := ':'
  const CharDot: byte := '.'
  const CharHash: byte := '#'
  const CharQuoteSingle: byte := '\''
  const CharQuoteDouble: byte := '"'
  const CharOpenBracket: byte := '['
  const CharCloseBracket: byte := ']'
  const CharOpenBrace: byte := '{'
  const CharCloseBrace: byte := '}'
  const CharComma: byte := ','
  const CharAmpersand: byte := '&'
  const CharAsterisk: byte := '*'

  /** TagKind: what the tokenizer remembers of a `&` or `*` it skipped. */
  datatype Tag = TagNull | TagAnchor | TagAlias | TagKey | TagBool

  // ----- TokenKind and its name table -----

  datatype TokenKind =
    | Unknown | Key | String | StringLit | Number | Boolean | Colon | Comma | Newline
    | Anchor | Alias | OpenMap | CloseMap | OpenSeq | CloseSeq | Eof | Indent | Dedent
  {
    /** The enumerator's value in the C enum. */
    function Ordinal(): nat
    {
      match this
      case Unknown => 0  case Key => 1  case String => 2  case StringLit => 3
      case Number => 4  case Boolean => 5  case Colon => 6  case Comma => 7
      case Newline => 8  case Anchor => 9  case Alias => 10  case OpenMap => 11
      case CloseMap => 12  case OpenSeq => 13  case CloseSeq => 14  case Eof => 15
      case Indent => 16  case Dedent => 17
    }
  }

  /** The kinds in enum order. */
  const TokenKinds: seq<TokenKind> :=
    [Unknown, Key, String, StringLit, Number, Boolean, Colon, Comma, Newline,
     Anchor, Alias, OpenMap, CloseMap, OpenSeq, CloseSeq, Eof, Indent, Dedent]

  /** `token_kind_strings`. */
  const TokenKindStrings: seq<seq<byte>> :=
    ["TOKEN_UNKNOWN", "TOKEN_KEY", "TOKEN_STRING", "TOKEN_STRING_LIT", "TOKEN_NUMBER",
     "TOKEN_BOOLEAN", "TOKEN_COLON", "TOKEN_COMMA", "TOKEN_NEWLINE", "TOKEN_ANCHOR",
     "TOKEN_ALIAS", "TOKEN_OPEN_MAP", "TOKEN_CLOSE_MAP", "TOKEN_OPEN_SEQ",
     "TOKEN_CLOSE_SEQ", "TOKEN_EOF", "TOKEN_INDENT", "TOKEN_DEDENT"]

  /** `token_kind_to_string(kind)`: the table entry at the kind's value. */
  function TokenKindToString(k: TokenKind): seq<byte>
  {
    TokenKindStrings[k.Ordinal()]
  }

  /** The enum values are 0..17, one per kind, in the order of `TokenKinds`. */
  lemma TokenKindsEnumerated()
    ensures |TokenKinds| == |TokenKindStrings| == 18
    ensures forall k: TokenKind :: k.Ordinal() < 18 && TokenKinds[k.Ordinal()] == k
    ensures forall i :: 0 <= i < 18 ==> TokenKinds[i].Ordinal() == i
  {
  }

  /**
   * The kind a name of the table stands for, read off the name's first
   * letter after `TOKEN_`, its length and one more letter.
   */
  function KindNamed(s: seq<byte>): TokenKind
  {
    var c := At(s, 6);
    if c == 'U' then Unknown
    else if c == 'K' then Key
    else if c == 'S' then (if |s| == 12 then TokenKind.String else StringLit)
    else if c == 'N' then (if |s| == 12 then Number else Newline)
    else if c == 'B' then Boolean
    else if c == 'C' && |s| == 11 then (if At(s, 8) == 'L' then Colon else Comma)
    else if c == 'C' then (if At(s, 12) == 'M' then CloseMap else CloseSeq)
    else if c == 'A' then (if |s| == 12 then Anchor else TokenKind.Alias)
    else if c == 'O' then (if At(s, 11) == 'M' then OpenMap else OpenSeq)
    else if c == 'E' then Eof
    else if c == 'I' then Indent
    else Dedent
  }

  /** Each entry of the name table names the kind at its index, and starts with `TOKEN_`. */
  lemma TokenKindNamed(k: TokenKind)
    ensures KindNamed(TokenKindToString(k)) == k
    ensures TokenKindToString(k)[..6] == "TOKEN_"
  {
  }

  /** Different kinds get different names. */
  lemma TokenKindNamesDistinct(k1: TokenKind, k2: TokenKind)
    ensures TokenKindToString(k1) == TokenKindToString(k2) <==> k1 == k2
  {
    TokenKindNamed(k1);
    TokenKindNamed(k2);
  }

  // ----- YamlErrorKind -----

  datatype YamlErrorKind =
    | TabIndentation | UnexpectedToken | WrongSyntax | KeyRedefinition | UndefinedAlias
    | RedefinedAlias | MissingValue | MissingComma | UnclosedQuote
  {
    function Ordinal(): nat
    {
      match this
      case TabIndentation => 0  case UnexpectedToken => 1  case WrongSyntax => 2
      case KeyRedefinition => 3  case UndefinedAlias => 4  case RedefinedAlias => 5
      case MissingValue => 6  case MissingComma => 7  case UnclosedQuote => 8
    }
  }

  /** The error kind whose enum value is `code`, if any: a C enum can hold any int. */
  function ErrorKindOf(code: int): (r: Option<YamlErrorKind>)
    ensures r.Some? <==> 0 <= code < 9
    ensures r.Some? ==> r.value.Ordinal() == code
  {
    if code == 0 then Some(TabIndentation)
    else if code == 1 then Some(UnexpectedToken)
    else if code == 2 then Some(WrongSyntax)
    else if code == 3 then Some(KeyRedefinition)
    else if code == 4 then Some(UndefinedAlias)
    else if code == 5 then Some(RedefinedAlias)
    else if code == 6 then Some(MissingValue)
    else if code == 7 then Some(MissingComma)
    else if code == 8 then Some(UnclosedQuote)
    else None
  }

  /** Every kind is found again from its enum value. */
  lemma ErrorKindOfOrdinal(k: YamlErrorKind)
    ensures ErrorKindOf(k.Ordinal()) == Some(k)
  {
  }

  // ----- NodeKind -----

  datatype NodeKind = NodeMap | NodeSequence | NodeString | NodeNumber | NodeBoolean

  // ----- tokens and errors -----

  /** A token is a slice `start .. start + length` of the input, with the line and column it began at. */
  datatype Token = Token(kind: TokenKind, start: nat, length: nat, line: nat, column: nat)

  /** `YamlError`; the enum `kind`, the `exp` and `got` texts, and the slice `pos`, `len`. */
  datatype YamlError = YamlError(kind: YamlErrorKind, exp: seq<byte>, got: seq<byte>, pos: nat, len: nat)

  /**
   * How reading can end instead of producing a result: `parser_error` (which
   * prints and exits), the unterminated-quote `exit`, and a read past the
   * terminating NUL, which in C is undefined behaviour.
   */
  datatype Failure =
    | ParserError(error: YamlError)
    | QuoteExit(quote: byte, atEof: bool)
    | Overrun(pos: nat)

  /** The UNEXPECTED_TOKEN error raised with a token's slice. */
  function Unexpected(t: Token, got: seq<byte>, exp: seq<byte>): Failure
  {
    ParserError(YamlError(UnexpectedToken, exp, got, t.start, t.length))
  }

  /** What the parser expected when it met a second comma: a map key, or a sequence value. */
  const ExpectedKey: seq<byte> := "a key"
  const ExpectedValue: seq<byte> := "a value"
  /** The name `token_kind_to_str` gives a comma. */
  const CommaName: seq<byte> := "TOKEN_COMMA"

  // ----- nodes -----

  /** A node's address in the heap. */
  type NodeId = nat

  datatype MapEntry = MapEntry(key: seq<byte>, val: NodeId)

  /** `Map`: the `size` entries in use are `entries`; `capacity` slots are allocated. */
  datatype Map = Map(capacity: nat, entries: seq<MapEntry>)
  {
    function Size(): nat { |entries| }
    predicate Valid() { 0 < capacity && Size() <= capacity }
  }

  /** `Sequence`: the `size` items in use are `items`; `capacity` slots are allocated. */
  datatype Sequence = Sequence(capacity: nat, items: seq<NodeId>)
  {
    function Size(): nat { |items| }
    predicate Valid() { 0 < capacity && Size() <= capacity }
  }

  /** The capacity `create_node` gives a new map or sequence. */
  const InitialCapacity: nat := 8

  function NewMap(): (r: Map)
    ensures r.Valid() && r.Size() == 0 && r.capacity == InitialCapacity
  {
    Map(InitialCapacity, [])
  }

  function NewSequence(): (r: Sequence)
    ensures r.Valid() && r.Size() == 0 && r.capacity == InitialCapacity
  {
    Sequence(InitialCapacity, [])
  }

  /** The capacity a full collection of `capacity` slots grows to before one more append. */
  function GrownCapacity(capacity: nat, size: nat): nat
  {
    if size >= capacity then 2 * capacity else capacity
  }

  /**
   * `map_add`: the new entry goes at index `size`, the earlier entries stay
   * as they were, and a full map doubles its capacity first.
   */
  function MapAdd(m: Map, key: seq<byte>, val: NodeId): (r: Map)
    requires m.Valid()
    ensures r.Valid() && r.Size() == m.Size() + 1
    ensures r.entries[..m.Size()] == m.entries && r.entries[m.Size()] == MapEntry(key, val)
    ensures m.Size() < m.capacity ==> r.capacity == m.capacity
    ensures m.Size() == m.capacity ==> r.capacity == 2 * m.capacity
  {
    Map(GrownCapacity(m.capacity, m.Size()), m.entries + [MapEntry(key, val)])
  }

  /** `sequence_add`: the same growth rule for items. */
  function SequenceAdd(s: Sequence, item: NodeId): (r: Sequence)
    requires s.Valid()
    ensures r.Valid() && r.Size() == s.Size() + 1
    ensures r.items[..s.Size()] == s.items && r.items[s.Size()] == item
    ensures s.Size() < s.capacity ==> r.capacity == s.capacity
    ensures s.Size() == s.capacity ==> r.capacity == 2 * s.capacity
  {
    Sequence(GrownCapacity(s.capacity, s.Size()), s.items + [item])
  }

  /** The capacity of a collection after `n` appends to a new one: the least `8 * 2^j` that holds `n`. */
  function CapacityAfter(n: nat): (r: nat)
    ensures n <= r && 0 < r
    decreases n
  {
    if n <= InitialCapacity then InitialCapacity else 2 * CapacityAfter((n + 1) / 2)
  }

  /** `CapacityAfter(n)` is `8 * 2^j`, and below `2n` once past 8. */
  lemma {:induction false} CapacityAfterShape(n: nat) returns (j: nat)
    ensures CapacityAfter(n) == InitialCapacity * Toys.Pow2(j)
    ensures n > InitialCapacity ==> CapacityAfter(n) < 2 * n
    decreases n
  {
    if n <= InitialCapacity {
      j := 0;
    } else {
      var j' := CapacityAfterShape((n + 1) / 2);
      j := j' + 1;
      assert InitialCapacity * Toys.Pow2(j) == 2 * (InitialCapacity * Toys.Pow2(j'));
    }
  }

  /** One append to a collection sized by `CapacityAfter` keeps it so. */
  lemma {:induction false} GrownCapacityFollows(n: nat)
    ensures GrownCapacity(CapacityAfter(n), n) == CapacityAfter(n + 1)
    decreases n
  {
    if n + 1 <= InitialCapacity {
    } else if n == InitialCapacity {
      assert CapacityAfter(n + 1) == 2 * CapacityAfter((n + 2) / 2);
    } else {
      var h := (n + 1) / 2;
      if n % 2 == 0 {
        assert (n + 2) / 2 == h + 1;
        GrownCapacityFollows(h);
        if h < CapacityAfter(h) {
          assert CapacityAfter(h + 1) == CapacityAfter(h);
        }
      } else {
        assert (n + 2) / 2 == h;
      }
    }
  }

  /** A map built by `map_add` from a new one has capacity `CapacityAfter(size)`. */
  lemma MapAddCapacity(m: Map, key: seq<byte>, val: NodeId)
    requires m.Valid() && m.capacity == CapacityAfter(m.Size())
    ensures MapAdd(m, key, val).capacity == CapacityAfter(m.Size() + 1)
  {
    GrownCapacityFollows(m.Size());
  }

  /** A sequence built by `sequence_add` from a new one has capacity `CapacityAfter(size)`. */
  lemma SequenceAddCapacity(s: Sequence, item: NodeId)
    requires s.Valid() && s.capacity == CapacityAfter(s.Size())
    ensures SequenceAdd(s, item).capacity == CapacityAfter(s.Size() + 1)
  {
    GrownCapacityFollows(s.Size());
  }

  /** The payload of the node's union, one per `NodeKind`; a number keeps its token text. */
  datatype Value =
    | MapValue(m: Map)
    | SequenceValue(s: Sequence)
    | StringValue(str: seq<byte>)
    | NumberValue(text: seq<byte>)
    | BooleanValue(b: bool)
  {
    function Kind(): NodeKind
    {
      match this
      case MapValue(_) => NodeMap
      case SequenceValue(_) => NodeSequence
      case StringValue(_) => NodeString
      case NumberValue(_) => NodeNumber
      case BooleanValue(_) => NodeBoolean
    }

    /** The nodes this one holds: map values in entry order, or sequence items. */
    function Children(): seq<NodeId>
    {
      match this
      case MapValue(m) => seq(|m.entries|, i requires 0 <= i < |m.entries| => m.entries[i].val)
      case SequenceValue(s) => s.items
      case _ => []
    }
  }

  /** `Node`: a kind with its payload and the reference count `rcount`. */
  datatype Node = Node(rcount: nat, value: Value)

  /** `create_node`: a new node is referenced once. */
  function CreateNode(v: Value): (r: Node)
    ensures r.rcount == 1 && r.value == v
  {
    Node(1, v)
  }

  /** `YamlAlias`: the anchor's name (sigil turned into `*`) and the node bound to it, NULL when none. */
  datatype YamlAlias = YamlAlias(name: seq<byte>, value: Option<NodeId>)
}

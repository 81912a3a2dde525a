/**
 * The tokenizer of yaml.c: a cursor over a NUL-terminated buffer that turns
 * its bytes into tokens.  `text` is always the C string the buffer holds (the
 * bytes before the terminator), so the byte at `|text|` is `CHAR_EOF` and a
 * position past it is a read outside the buffer.
 *
 * The reference functions (`SkipSpaces`, `AfterWhitespace`, `NextTokenF`, ...)
 * say what each scan computes; the class `Tokenizer` does the same by
 * updating its fields in loops, and its methods are proved to agree with them.
 */
module Tokenizers {
  import opened Bytes
  import opened Wrappers
  import opened YamlTypes

  /** The three position fields of `Tokenizer`: `cpos`, `line`, `ccol`. */
  datatype Cursor = Cursor(cpos: nat, line: nat, ccol: nat)

  // ----- where a position is -----

  /** The index the line holding position `p` starts at: 0, or just after the last `\n` before `p`. */
  function LineStart(text: seq<byte>, p: nat): (r: nat)
    requires p <= |text|
    ensures r <= p && (r == 0 || text[r - 1] == '\n')
    ensures forall j :: r <= j < p ==> text[j] != '\n'
  {
    if p == 0 then 0 else if text[p - 1] == '\n' then p else LineStart(text, p - 1)
  }

  /** The number of `\n` bytes before position `p`. */
  function NewlinesBefore(text: seq<byte>, p: nat): nat
    requires p <= |text|
  {
    if p == 0 then 0 else NewlinesBefore(text, p - 1) + (if text[p - 1] == '\n' then 1 else 0)
  }

  /** The 1-based line and column of position `p`. */
  function LineOf(text: seq<byte>, p: nat): nat
    requires p <= |text|
  {
    1 + NewlinesBefore(text, p)
  }

  function ColumnOf(text: seq<byte>, p: nat): nat
    requires p <= |text|
  {
    1 + p - LineStart(text, p)
  }

  /** The cursor's `line` and `ccol` are those of its `cpos`. */
  ghost predicate Tracks(text: seq<byte>, c: Cursor)
  {
    c.cpos <= |text| && c.line == LineOf(text, c.cpos) && c.ccol == ColumnOf(text, c.cpos)
  }

  // ----- byte classes of the scans -----

  predicate IsNumberStart(b: byte) { IsDigit(b) || b == '.' || b == '-' || b == '+' }

  predicate IsNumberChar(b: byte)
  {
    IsDigit(b) || b == '.' || b == 'e' || b == 'E' || b == '-' || b == '+' || b == '_'
  }

  predicate IsIdentChar(b: byte) { IsAlnum(b) || b == '_' || b == '-' || b == '.' }

  /** The single-byte tokens and their kinds. */
  function PunctKind(b: byte): Option<TokenKind>
  {
    if b == ':' then Some(Colon)
    else if b == ',' then Some(Comma)
    else if b == '{' then Some(OpenMap)
    else if b == '[' then Some(OpenSeq)
    else if b == '}' then Some(CloseMap)
    else if b == ']' then Some(CloseSeq)
    else None
  }

  // ----- the scans -----

  /** `skip_char`: one byte forward; over `\n` the line goes up and the column back to 1. */
  function Step(text: seq<byte>, c: Cursor): (r: Cursor)
    requires c.cpos < |text|
    ensures r.cpos == c.cpos + 1
    ensures Tracks(text, c) ==> Tracks(text, r)
  {
    if text[c.cpos] == '\n' then Cursor(c.cpos + 1, c.line + 1, 1)
    else Cursor(c.cpos + 1, c.line, c.ccol + 1)
  }

  /** The loop of `skip_whitespace`: over spaces only, one column each. */
  function SkipSpaces(text: seq<byte>, c: Cursor): (r: Cursor)
    requires c.cpos <= |text|
    ensures c.cpos <= r.cpos <= |text| && At(text, r.cpos) != ' '
    ensures forall j :: c.cpos <= j < r.cpos ==> text[j] == ' '
    ensures r.line == c.line && r.ccol == c.ccol + (r.cpos - c.cpos)
    ensures Tracks(text, c) ==> Tracks(text, r)
    decreases |text| - c.cpos
  {
    if At(text, c.cpos) == ' ' then SkipSpaces(text, Cursor(c.cpos + 1, c.line, c.ccol + 1)) else c
  }

  /** `skip_whitespace`: spaces are skipped; a tab after them is a TAB_INDENTATION error at the tab. */
  function AfterWhitespace(text: seq<byte>, c: Cursor): (r: Result<Cursor, Failure>)
    requires c.cpos <= |text|
    ensures r.Ok? ==> r.value == SkipSpaces(text, c) && At(text, r.value.cpos) != '\t'
    ensures r.Err? <==> At(text, SkipSpaces(text, c).cpos) == '\t'
    ensures r.Err? ==> r.error == ParserError(YamlError(TabIndentation, "", "", SkipSpaces(text, c).cpos, 1))
  {
    var w := SkipSpaces(text, c);
    if At(text, w.cpos) == '\t' then Err(ParserError(YamlError(TabIndentation, "", "", w.cpos, 1)))
    else Ok(w)
  }

  /** The newline case of `next_token`: a run of `\n`, one line each, then column 1. */
  function SkipNewlines(text: seq<byte>, c: Cursor): (r: Cursor)
    requires c.cpos <= |text|
    ensures c.cpos <= r.cpos <= |text| && At(text, r.cpos) != '\n' && r.ccol == 1
    ensures forall j :: c.cpos <= j < r.cpos ==> text[j] == '\n'
    ensures r.line == c.line + (r.cpos - c.cpos)
    ensures c.line == LineOf(text, c.cpos) ==> r.line == LineOf(text, r.cpos)
    ensures c.line == LineOf(text, c.cpos) && r.cpos > c.cpos ==> Tracks(text, r)
    decreases |text| - c.cpos
  {
    if At(text, c.cpos) == '\n' then SkipNewlines(text, Cursor(c.cpos + 1, c.line + 1, c.ccol))
    else c.(ccol := 1)
  }

  /** The comment case: up to, not over, the next `\n` or the end. */
  function SkipComment(text: seq<byte>, c: Cursor): (r: Cursor)
    requires c.cpos <= |text|
    ensures c.cpos <= r.cpos <= |text| && (At(text, r.cpos) == '\n' || At(text, r.cpos) == NUL)
    ensures forall j :: c.cpos <= j < r.cpos ==> text[j] != '\n'
    ensures Tracks(text, c) ==> Tracks(text, r)
    decreases |text| - c.cpos
  {
    var b := At(text, c.cpos);
    if b != '\n' && b != NUL then SkipComment(text, Step(text, c)) else c
  }

  /**
   * The scan of a double-quoted string, from just after the opening quote to
   * the closing one.  A backslash makes it skip the next byte too: when that
   * byte is the terminator, the next read is past the buffer.
   */
  function ScanDouble(text: seq<byte>, c: Cursor): (r: Result<Cursor, Failure>)
    requires c.cpos <= |text|
    ensures r.Ok? ==> c.cpos <= r.value.cpos < |text| && text[r.value.cpos] == '"'
    ensures r.Ok? && Tracks(text, c) ==> Tracks(text, r.value)
    ensures r.Err? ==> r.error == QuoteExit('"', true) || r.error == QuoteExit('"', false) ||
                       (r.error == Overrun(|text| + 1) && |text| >= 1 && text[|text| - 1] == '\\')
    decreases |text| - c.cpos
  {
    var b := At(text, c.cpos);
    if b == '"' then Ok(c)
    else if b == '\n' || b == NUL then Err(QuoteExit('"', b == NUL))
    else if b == '\\' then
      var c1 := Step(text, c);
      if c1.cpos == |text| then Err(Overrun(|text| + 1))
      else ScanDouble(text, Step(text, c1))
    else ScanDouble(text, Step(text, c))
  }

  /** The scan of a single-quoted string: no escapes. */
  function ScanSingle(text: seq<byte>, c: Cursor): (r: Result<Cursor, Failure>)
    requires c.cpos <= |text|
    ensures r.Ok? ==> c.cpos <= r.value.cpos < |text| && text[r.value.cpos] == '\''
    ensures r.Ok? ==> forall j :: c.cpos <= j < r.value.cpos ==> text[j] != '\'' && text[j] != '\n'
    ensures r.Err? ==> r.error == QuoteExit('\'', true) || r.error == QuoteExit('\'', false)
    ensures r.Ok? && Tracks(text, c) ==> Tracks(text, r.value)
    decreases |text| - c.cpos
  {
    var b := At(text, c.cpos);
    if b == '\'' then Ok(c)
    else if b == '\n' || b == NUL then Err(QuoteExit('\'', b == NUL))
    else ScanSingle(text, Step(text, c))
  }

  // ----- where a quoted string closes -----

  /** The number of backslashes just before `j`, counted back no further than `s`. */
  function EscapeRun(text: seq<byte>, s: nat, j: nat): nat
    requires s <= j <= |text|
    decreases j - s
  {
    if s < j && text[j - 1] == '\\' then 1 + EscapeRun(text, s, j - 1) else 0
  }

  /** The byte at `j` is not taken by a backslash: an even run of backslashes precedes it. */
  predicate Unescaped(text: seq<byte>, s: nat, j: nat)
    requires s <= j <= |text|
  {
    EscapeRun(text, s, j) % 2 == 0
  }

  /** The bytes a string scan for the quote `q` stops on. */
  predicate Ends(q: byte, b: byte) { b == q || b == '\n' || b == NUL }

  /**
   * `k` is where a double-quoted string opened just before `s` ends: the
   * first byte from `s` on that no backslash takes and that is `"`, a
   * newline or the terminator.
   */
  ghost predicate DoubleStop(text: seq<byte>, s: nat, k: nat)
  {
    s <= k <= |text| && Unescaped(text, s, k) && Ends('"', At(text, k)) &&
    forall j :: s <= j < k && Unescaped(text, s, j) ==> !Ends('"', text[j])
  }

  /** `k` is where a single-quoted string opened just before `s` ends: the first `'`, newline or terminator. */
  ghost predicate SingleStop(text: seq<byte>, s: nat, k: nat)
  {
    s <= k <= |text| && Ends('\'', At(text, k)) && forall j :: s <= j < k ==> !Ends('\'', text[j])
  }

  lemma {:induction false} EscapeRunShift(text: seq<byte>, s: nat, j: nat)
    requires s + 1 <= j <= |text| && text[s] != '\\'
    ensures EscapeRun(text, s, j) == EscapeRun(text, s + 1, j)
    decreases j - s
  {
    if j - 1 > s && text[j - 1] == '\\' {
      EscapeRunShift(text, s, j - 1);
    }
  }

  lemma {:induction false} EscapeRunSkip(text: seq<byte>, s: nat, j: nat)
    requires s + 2 <= j <= |text| && text[s] == '\\'
    ensures Unescaped(text, s, j) <==> Unescaped(text, s + 2, j)
    decreases j - s
  {
    if j == s + 2 {
      assert EscapeRun(text, s, s + 1) == 1;
    } else if text[j - 1] == '\\' {
      EscapeRunSkip(text, s, j - 1);
    }
  }

  /** One step of the double-quote scan: past a byte that does not end it, the stop is that of the rest. */
  lemma DoubleStopStep(text: seq<byte>, s: nat, k: nat)
    requires s < |text| && !Ends('"', text[s])
    requires text[s] == '\\' ==> s + 1 < |text|
    ensures var d := if text[s] == '\\' then 2 else 1;
            DoubleStop(text, s, k) <==> s + d <= k && DoubleStop(text, s + d, k)
  {
    assert Unescaped(text, s, s);
    if text[s] == '\\' {
      assert EscapeRun(text, s, s + 1) == 1;
      forall j | s + 2 <= j <= |text| ensures Unescaped(text, s, j) <==> Unescaped(text, s + 2, j) {
        EscapeRunSkip(text, s, j);
      }
    } else {
      forall j | s + 1 <= j <= |text| ensures EscapeRun(text, s, j) == EscapeRun(text, s + 1, j) {
        EscapeRunShift(text, s, j);
      }
    }
  }

  /**
   * The double-quote scan ends where `DoubleStop` says: on the closing quote,
   * or with an exit at a newline or the terminator.
   */
  lemma {:induction false} ScanDoubleStops(text: seq<byte>, c: Cursor, k: nat)
    requires c.cpos <= |text| && DoubleStop(text, c.cpos, k)
    ensures var r := ScanDouble(text, c);
            if At(text, k) == '"' then r.Ok? && r.value.cpos == k
            else r == Err(QuoteExit('"', At(text, k) == NUL))
    decreases |text| - c.cpos
  {
    assert Unescaped(text, c.cpos, c.cpos);
    var b := At(text, c.cpos);
    if Ends('"', b) {
      assert k == c.cpos;
    } else if b == '\\' {
      assert c.cpos + 1 < |text| by { assert EscapeRun(text, c.cpos, c.cpos + 1) == 1; }
      DoubleStopStep(text, c.cpos, k);
      ScanDoubleStops(text, Step(text, Step(text, c)), k);
    } else {
      DoubleStopStep(text, c.cpos, k);
      ScanDoubleStops(text, Step(text, c), k);
    }
  }

  lemma {:induction false} NoStopOverruns(text: seq<byte>, c: Cursor)
    requires c.cpos <= |text| && forall k :: !DoubleStop(text, c.cpos, k)
    ensures ScanDouble(text, c) == Err(Overrun(|text| + 1))
    decreases |text| - c.cpos
  {
    assert Unescaped(text, c.cpos, c.cpos);
    assert !DoubleStop(text, c.cpos, c.cpos);
    var b := At(text, c.cpos);
    if b == '\\' {
      if c.cpos + 1 < |text| {
        var s2 := c.cpos + 2;
        forall k ensures !DoubleStop(text, s2, k) {
          DoubleStopStep(text, c.cpos, k);
        }
        NoStopOverruns(text, Step(text, Step(text, c)));
      }
    } else {
      var s1 := c.cpos + 1;
      forall k ensures !DoubleStop(text, s1, k) {
        DoubleStopStep(text, c.cpos, k);
      }
      NoStopOverruns(text, Step(text, c));
    }
  }

  /** The double-quote scan runs off the buffer exactly when it has no stop: a final backslash takes the terminator. */
  lemma ScanDoubleOverrun(text: seq<byte>, c: Cursor)
    requires c.cpos <= |text|
    ensures ScanDouble(text, c) == Err(Overrun(|text| + 1)) <==> forall k :: !DoubleStop(text, c.cpos, k)
  {
    if forall k :: !DoubleStop(text, c.cpos, k) {
      NoStopOverruns(text, c);
    } else {
      var k :| DoubleStop(text, c.cpos, k);
      ScanDoubleStops(text, c, k);
    }
  }

  /** The single-quote scan ends where `SingleStop` says: on the closing quote, or with an exit. */
  lemma {:induction false} ScanSingleStops(text: seq<byte>, c: Cursor, k: nat)
    requires c.cpos <= |text| && SingleStop(text, c.cpos, k)
    ensures var r := ScanSingle(text, c);
            if At(text, k) == '\'' then r.Ok? && r.value.cpos == k
            else r == Err(QuoteExit('\'', At(text, k) == NUL))
    decreases |text| - c.cpos
  {
    if !Ends('\'', At(text, c.cpos)) {
      ScanSingleStops(text, Step(text, c), k);
    } else {
      assert k == c.cpos;
    }
  }

  /** Every single-quote scan has its stop: the buffer ends in the terminator. */
  lemma {:induction false} SingleStopExists(text: seq<byte>, s: nat) returns (k: nat)
    requires s <= |text|
    ensures SingleStop(text, s, k)
    decreases |text| - s
  {
    if Ends('\'', At(text, s)) {
      k := s;
    } else {
      k := SingleStopExists(text, s + 1);
    }
  }

  /** The rest of a number: digits, `.`, `e`, `E`, `-`, `+`, `_`. */
  function ScanNumber(text: seq<byte>, c: Cursor): (r: Cursor)
    requires c.cpos <= |text|
    ensures c.cpos <= r.cpos <= |text| && !IsNumberChar(At(text, r.cpos))
    ensures forall j :: c.cpos <= j < r.cpos ==> IsNumberChar(text[j])
    ensures Tracks(text, c) ==> Tracks(text, r)
    decreases |text| - c.cpos
  {
    if IsNumberChar(At(text, c.cpos)) then ScanNumber(text, Step(text, c)) else c
  }

  /** The rest of an identifier: letters, digits, `_`, `-`, `.`. */
  function ScanIdent(text: seq<byte>, c: Cursor): (r: Cursor)
    requires c.cpos <= |text|
    ensures c.cpos <= r.cpos <= |text| && !IsIdentChar(At(text, r.cpos))
    ensures forall j :: c.cpos <= j < r.cpos ==> IsIdentChar(text[j])
    ensures Tracks(text, c) ==> Tracks(text, r)
    decreases |text| - c.cpos
  {
    if IsIdentChar(At(text, c.cpos)) then ScanIdent(text, Step(text, c)) else c
  }

  /** What `next_token` promises of every token it returns, used by the tree builder. */
  ghost predicate Progress(text: seq<byte>, c: Cursor, r: (Token, Cursor))
  {
    var (t, c') := r;
    c.cpos <= c'.cpos <= |text| && t.start + t.length <= |text| &&
    ((t.kind == String || t.kind == StringLit || t.kind == Anchor || t.kind == Alias) ==> t.length >= 2) &&
    (t.kind == Eof ==> t.length == 0 && t.start == |text| && c'.cpos == |text|) &&
    (c'.cpos == c.cpos ==> t.kind == Eof || t.kind == Unknown)
  }

  /**
   * The ways `next_token` stops the program: a tab where a token should
   * start, a quote left open at a newline or at the end, or a read past the
   * terminator after a final backslash.
   */
  ghost predicate TokenizerFailure(text: seq<byte>, f: Failure)
  {
    match f
    case ParserError(e) => e.kind == TabIndentation && e.len == 1 && At(text, e.pos) == '\t' && e.exp == [] && e.got == []
    case QuoteExit(q, _) => q == '"' || q == '\''
    case Overrun(p) => p == |text| + 1 && |text| >= 1 && text[|text| - 1] == '\\'
  }

  /**
   * `next_token` from cursor `c`; `tag` remembers a skipped `&` or `*`, and
   * `track` is `loop_track`, the one extra round the default case allows
   * before giving TOKEN_UNKNOWN.
   */
  function NextTokenF(text: seq<byte>, c: Cursor, tag: Tag, track: nat): (r: Result<(Token, Cursor), Failure>)
    requires NulFree(text) && c.cpos <= |text|
    requires tag != TagNull ==> c.cpos >= 1
    ensures r.Ok? ==> Progress(text, c, r.value)
    ensures r.Err? ==> TokenizerFailure(text, r.error)
    decreases |text| - c.cpos, track, 1
  {
    if At(text, c.cpos) == NUL then Ok((Token(Eof, c.cpos, 0, c.line, c.ccol), c))
    else
      match AfterWhitespace(text, c)
      case Err(e) => Err(e)
      case Ok(w) => Lex(text, w, tag, track)
  }

  /** The bytes after which `next_token` goes back to its start: a newline, a comment, a sigil. */
  predicate IsLayout(b: byte) { b == '\n' || b == '#' || b == '&' || b == '*' }

  /** Where the layout case leaves the cursor: past the newline run, up to the comment's end, past the sigil. */
  function PassLayout(text: seq<byte>, w: Cursor): (r: Cursor)
    requires w.cpos <= |text| && IsLayout(At(text, w.cpos))
    ensures w.cpos < r.cpos <= |text|
    ensures Tracks(text, w) ==> Tracks(text, r)
  {
    var b := At(text, w.cpos);
    if b == '\n' then SkipNewlines(text, w)
    else if b == '#' then SkipComment(text, w)
    else Step(text, w)
  }

  /** The tag after a layout byte: `&` and `*` set it, the others keep it. */
  function TagAfter(b: byte, tag: Tag): Tag
  {
    if b == '&' then TagAnchor else if b == '*' then TagAlias else tag
  }

  /**
   * The `switch` of `next_token` on the byte at `w`, the cursor after the
   * spaces: layout goes back to the start, an unknown byte does so once
   * while `track` lasts, and every other byte is lexed by `LexDirect`.
   */
  function Lex(text: seq<byte>, w: Cursor, tag: Tag, track: nat): (r: Result<(Token, Cursor), Failure>)
    requires NulFree(text) && w.cpos <= |text|
    requires tag != TagNull ==> w.cpos >= 1
    requires At(text, w.cpos) != ' ' && At(text, w.cpos) != '\t'
    ensures r.Ok? ==> Progress(text, w, r.value)
    ensures r.Err? ==> TokenizerFailure(text, r.error)
    decreases |text| - w.cpos, track, 0
  {
    var b := At(text, w.cpos);
    if IsLayout(b) then NextTokenF(text, PassLayout(text, w), TagAfter(b, tag), track)
    else if IsUnknownByte(b) && track > 0 then NextTokenF(text, w, tag, track - 1)
    else LexDirect(text, w, tag)
  }

  /** The cases of the `switch` that give a token (or stop): punctuation, quotes, numbers, identifiers, the end, an unknown byte. */
  function LexDirect(text: seq<byte>, w: Cursor, tag: Tag): (r: Result<(Token, Cursor), Failure>)
    requires NulFree(text) && w.cpos <= |text|
    requires tag != TagNull ==> w.cpos >= 1
    requires At(text, w.cpos) != ' ' && At(text, w.cpos) != '\t' && !IsLayout(At(text, w.cpos))
    ensures r.Ok? ==> Progress(text, w, r.value)
    ensures r.Err? ==> TokenizerFailure(text, r.error)
  {
    var b := At(text, w.cpos);
    if PunctKind(b).Some? then Ok((Token(PunctKind(b).value, w.cpos, 1, w.line, w.ccol), Step(text, w)))
    else if b == '"' then LexQuoted(text, w, ScanDouble(text, Step(text, w)), String)
    else if b == '\'' then LexQuoted(text, w, ScanSingle(text, Step(text, w)), StringLit)
    else if IsNumberStart(b) then
      var n := ScanNumber(text, Step(text, w));
      Ok((Token(Number, w.cpos, n.cpos - w.cpos, w.line, w.ccol), n))
    else if IsIdentChar(b) then LexIdent(text, w, ScanIdent(text, Step(text, w)), tag)
    else if b == NUL then
      // back at the start, the terminator gives TOKEN_EOF straight away
      Ok((Token(Eof, w.cpos, 0, w.line, w.ccol), w))
    else Ok((Token(Unknown, w.cpos, 1, w.line, w.ccol), w))
  }

  /** A quoted token: from the opening to the closing quote inclusive; the cursor ends past the closing quote. */
  function LexQuoted(text: seq<byte>, w: Cursor, scan: Result<Cursor, Failure>, kind: TokenKind): (r: Result<(Token, Cursor), Failure>)
    requires w.cpos < |text|
    requires scan.Ok? ==> w.cpos < scan.value.cpos < |text| && text[scan.value.cpos] == text[w.cpos]
    ensures r.Ok? <==> scan.Ok?
    ensures r.Err? ==> r.error == scan.error
    ensures r.Ok? ==> var (t, after) := r.value;
              t.kind == kind && t.start == w.cpos && t.start + t.length == scan.value.cpos + 1 &&
              text[t.start] == text[t.start + t.length - 1] && after.cpos == t.start + t.length
  {
    match scan
    case Err(e) => Err(e)
    case Ok(q) => Ok((Token(kind, w.cpos, q.cpos - w.cpos + 1, w.line, w.ccol), Step(text, q)))
  }

  /** `true` or `false` as the whole identifier `text[s..e]`. */
  predicate IsBooleanText(text: seq<byte>, s: nat, e: nat)
    requires s <= e <= |text|
  {
    (e - s == 4 && text[s..e] == "true") || (e - s == 5 && text[s..e] == "false")
  }

  /**
   * An identifier from `w` to `i`: a boolean when it is `true` or `false` and
   * no `:` follows; otherwise an anchor or alias (the slice widened by one
   * byte to the left) when a `&` or `*` was skipped, else a key.
   */
  function LexIdent(text: seq<byte>, w: Cursor, i: Cursor, tag: Tag): (r: Result<(Token, Cursor), Failure>)
    requires w.cpos < i.cpos <= |text|
    requires tag != TagNull ==> w.cpos >= 1
    ensures r.Ok? && Begin(r.value.0) == w.cpos && r.value.0.start + r.value.0.length == i.cpos
  {
    var len := i.cpos - w.cpos;
    if At(text, i.cpos) != ':' && IsBooleanText(text, w.cpos, i.cpos) then
      Ok((Token(Boolean, w.cpos, len, w.line, w.ccol), i))
    else if tag == TagAnchor then Ok((Token(Anchor, w.cpos - 1, len + 1, w.line, w.ccol), i))
    else if tag == TagAlias then Ok((Token(TokenKind.Alias, w.cpos - 1, len + 1, w.line, w.ccol), i))
    else Ok((Token(Key, w.cpos, len, w.line, w.ccol), i))
  }

  /** `token_value`: the token's slice, without the two quotes of a quoted string. */
  function TokenValue(text: seq<byte>, t: Token): seq<byte>
    requires t.start + t.length <= |text|
    requires (t.kind == String || t.kind == StringLit) ==> t.length >= 2
  {
    if t.kind == String || t.kind == StringLit then text[t.start + 1..t.start + t.length - 1]
    else text[t.start..t.start + t.length]
  }

  // ----- what the tokens are -----

  /** A byte no case of `next_token` accepts: it becomes TOKEN_UNKNOWN. */
  predicate IsUnknownByte(b: byte)
  {
    b != NUL && b != ' ' && b != '\t' && b != '\n' && b != '#' && b != '&' && b != '*' &&
    PunctKind(b).None? && b != '"' && b != '\'' && !IsNumberStart(b) && !IsIdentChar(b)
  }

  /** `text[s..e]` is a whole identifier: it does not start like a number and cannot be extended. */
  ghost predicate IdentRun(text: seq<byte>, s: nat, e: nat)
  {
    s < e <= |text| && !IsNumberStart(text[s]) &&
    (forall j :: s <= j < e ==> IsIdentChar(text[j])) && !IsIdentChar(At(text, e))
  }

  /**
   * The slice of each kind of token, and where the cursor is left (`after`):
   * past the token, or on it for TOKEN_EOF and TOKEN_UNKNOWN.
   */
  ghost predicate TokenShape(text: seq<byte>, t: Token, after: nat)
  {
    var e := t.start + t.length;
    e <= |text| &&
    match t.kind
    case Eof => t.length == 0 && t.start == |text| && after == t.start
    case Unknown => t.length == 1 && IsUnknownByte(text[t.start]) && after == t.start
    case String =>
      t.length >= 2 && text[t.start] == '"' && text[e - 1] == '"' && after == e
    case StringLit =>
      t.length >= 2 && text[t.start] == '\'' && text[e - 1] == '\'' && after == e &&
      forall j :: t.start < j < e - 1 ==> text[j] != '\'' && text[j] != '\n'
    case Number =>
      t.length >= 1 && IsNumberStart(text[t.start]) && !IsNumberChar(At(text, e)) && after == e &&
      forall j :: t.start < j < e ==> IsNumberChar(text[j])
    case Boolean => IsBooleanText(text, t.start, e) && At(text, e) != ':' && after == e
    case Key =>
      IdentRun(text, t.start, e) && !(IsBooleanText(text, t.start, e) && At(text, e) != ':') && after == e
    case Anchor =>
      IdentRun(text, t.start + 1, e) && !(IsBooleanText(text, t.start + 1, e) && At(text, e) != ':') && after == e
    case Alias =>
      IdentRun(text, t.start + 1, e) && !(IsBooleanText(text, t.start + 1, e) && At(text, e) != ':') && after == e
    case Newline => false
    case Indent => false
    case Dedent => false
    case _ => t.length == 1 && PunctKind(text[t.start]) == Some(t.kind) && after == e
  }

  // ----- what `next_token` passes over -----

  /** `j` lies in a comment that starts at or after `s`: a `#` before it with no newline between. */
  ghost predicate InComment(text: seq<byte>, s: nat, j: nat)
  {
    exists i :: s <= i <= j < |text| && text[i] == '#' && forall m :: i <= m <= j ==> text[m] != '\n'
  }

  /** `text[s..e]` is layout: spaces, newlines, the sigils `&` and `*`, and comments. */
  ghost predicate Skipped(text: seq<byte>, s: nat, e: nat)
  {
    s <= e <= |text| &&
    forall j :: s <= j < e ==>
      text[j] == ' ' || text[j] == '\n' || text[j] == '&' || text[j] == '*' || InComment(text, s, j)
  }

  lemma SkippedTrans(text: seq<byte>, a: nat, b: nat, c: nat)
    requires a <= b && Skipped(text, a, b) && Skipped(text, b, c)
    ensures Skipped(text, a, c)
  {
    forall j | b <= j < c && InComment(text, b, j) ensures InComment(text, a, j) {
      var i :| b <= i <= j < |text| && text[i] == '#' && forall m :: i <= m <= j ==> text[m] != '\n';
    }
  }

  /** The layout cases of `next_token` pass over layout only. */
  lemma PassLayoutSkips(text: seq<byte>, w: Cursor)
    requires w.cpos <= |text| && IsLayout(At(text, w.cpos))
    ensures Skipped(text, w.cpos, PassLayout(text, w).cpos)
  {
    var r := PassLayout(text, w);
    if At(text, w.cpos) == '#' {
      forall j | w.cpos <= j < r.cpos ensures InComment(text, w.cpos, j) {
        assert text[w.cpos] == '#' && forall m :: w.cpos <= m <= j ==> text[m] != '\n';
      }
    }
  }

  /** Where a token's text begins: its first byte, or for an anchor or alias the name after the sigil's slot. */
  function Begin(t: Token): nat
  {
    if t.kind == Anchor || t.kind == Alias then t.start + 1 else t.start
  }

  /**
   * Every token `next_token` returns has the shape of its kind, and only
   * layout lies between the cursor and the token: newline runs, comments and
   * sigils give no token of their own.
   */
  lemma NextTokenShape(text: seq<byte>, c: Cursor, tag: Tag, track: nat)
    requires NulFree(text) && c.cpos <= |text|
    requires tag != TagNull ==> c.cpos >= 1
    ensures var r := NextTokenF(text, c, tag, track);
              r.Ok? ==> TokenShape(text, r.value.0, r.value.1.cpos) && Skipped(text, c.cpos, Begin(r.value.0))
    decreases |text| - c.cpos, track, 1
  {
    if At(text, c.cpos) != NUL {
      var w := AfterWhitespace(text, c);
      if w.Ok? {
        LexShape(text, w.value, tag, track);
        var r := NextTokenF(text, c, tag, track);
        if r.Ok? {
          SkippedTrans(text, c.cpos, w.value.cpos, Begin(r.value.0));
        }
      }
    }
  }

  lemma LexShape(text: seq<byte>, w: Cursor, tag: Tag, track: nat)
    requires NulFree(text) && w.cpos <= |text|
    requires tag != TagNull ==> w.cpos >= 1
    requires At(text, w.cpos) != ' ' && At(text, w.cpos) != '\t'
    ensures var r := Lex(text, w, tag, track);
              r.Ok? ==> TokenShape(text, r.value.0, r.value.1.cpos) && Skipped(text, w.cpos, Begin(r.value.0))
    decreases |text| - w.cpos, track, 0
  {
    var b := At(text, w.cpos);
    if IsLayout(b) {
      var p := PassLayout(text, w);
      NextTokenShape(text, p, TagAfter(b, tag), track);
      var r := Lex(text, w, tag, track);
      if r.Ok? {
        PassLayoutSkips(text, w);
        SkippedTrans(text, w.cpos, p.cpos, Begin(r.value.0));
      }
    } else if IsUnknownByte(b) && track > 0 {
      NextTokenShape(text, w, tag, track - 1);
    } else {
      DirectShape(text, w, tag);
    }
  }

  lemma DirectShape(text: seq<byte>, w: Cursor, tag: Tag)
    requires NulFree(text) && w.cpos <= |text|
    requires tag != TagNull ==> w.cpos >= 1
    requires At(text, w.cpos) != ' ' && At(text, w.cpos) != '\t' && !IsLayout(At(text, w.cpos))
    ensures var r := LexDirect(text, w, tag);
              r.Ok? ==> TokenShape(text, r.value.0, r.value.1.cpos) && Begin(r.value.0) == w.cpos
  {
    var b := At(text, w.cpos);
    if PunctKind(b).Some? {
    } else if b == '"' {
      assert LexDirect(text, w, tag) == LexQuoted(text, w, ScanDouble(text, Step(text, w)), String);
      QuotedShape(text, w, ScanDouble(text, Step(text, w)), String);
    } else if b == '\'' {
      QuotedShape(text, w, ScanSingle(text, Step(text, w)), StringLit);
    } else if IsNumberStart(b) {
    } else if IsIdentChar(b) {
      IdentShape(text, w, ScanIdent(text, Step(text, w)), tag);
    }
  }

  lemma QuotedShape(text: seq<byte>, w: Cursor, scan: Result<Cursor, Failure>, kind: TokenKind)
    requires w.cpos < |text| && (kind == String || kind == StringLit)
    requires kind == String ==> text[w.cpos] == '"' && scan == ScanDouble(text, Step(text, w))
    requires kind == StringLit ==> text[w.cpos] == '\'' && scan == ScanSingle(text, Step(text, w))
    ensures var r := LexQuoted(text, w, scan, kind);
              r.Ok? ==> TokenShape(text, r.value.0, r.value.1.cpos)
  {
  }

  lemma IdentShape(text: seq<byte>, w: Cursor, i: Cursor, tag: Tag)
    requires w.cpos < |text| && IsIdentChar(text[w.cpos]) && !IsNumberStart(text[w.cpos])
    requires tag != TagNull ==> w.cpos >= 1
    requires i == ScanIdent(text, Step(text, w))
    ensures var r := LexIdent(text, w, i, tag);
              r.Ok? ==> TokenShape(text, r.value.0, r.value.1.cpos)
  {
    var e := i.cpos;
    assert IdentRun(text, w.cpos, e);
    var t := LexIdent(text, w, i, tag).value.0;
    IdentTokenShape(text, t, w.cpos, e);
  }

  lemma IdentTokenShape(text: seq<byte>, t: Token, s: nat, e: nat)
    requires IdentRun(text, s, e) && t.start + t.length == e
    requires t.kind == Boolean || t.kind == Key || t.kind == Anchor || t.kind == Alias
    requires t.kind == Boolean <==> IsBooleanText(text, s, e) && At(text, e) != ':'
    requires if t.kind == Anchor || t.kind == Alias then s == t.start + 1 else s == t.start
    ensures TokenShape(text, t, e)
  {
  }

  /**
   * Why `next_token` stops at position `o`: a tab there, a quote there whose
   * string reaches a newline or the terminator first, or a `"` whose string
   * has no stop because a final backslash takes the terminator.
   */
  ghost predicate FailsAt(text: seq<byte>, o: nat, f: Failure)
  {
    o < |text| &&
    match f
    case ParserError(e) => text[o] == '\t' && e == YamlError(TabIndentation, "", "", o, 1)
    case QuoteExit(q, eof) =>
      text[o] == q &&
      ((q == '"' && exists k :: DoubleStop(text, o + 1, k) && At(text, k) != q && eof == (At(text, k) == NUL)) ||
       (q == '\'' && exists k :: SingleStop(text, o + 1, k) && At(text, k) != q && eof == (At(text, k) == NUL)))
    case Overrun(p) => text[o] == '"' && p == |text| + 1 && NoDoubleStop(text, o + 1)
  }

  /** A double-quoted string opened just before `s` has no stop. */
  ghost predicate NoDoubleStop(text: seq<byte>, s: nat)
  {
    forall k :: !DoubleStop(text, s, k)
  }

  /** When `next_token` stops the program, it does so at a position `o` past layout only, for the reason `FailsAt` gives. */
  lemma NextTokenFailure(text: seq<byte>, c: Cursor, tag: Tag, track: nat) returns (o: nat)
    requires NulFree(text) && c.cpos <= |text|
    requires tag != TagNull ==> c.cpos >= 1
    requires NextTokenF(text, c, tag, track).Err?
    ensures Skipped(text, c.cpos, o) && FailsAt(text, o, NextTokenF(text, c, tag, track).error)
    decreases |text| - c.cpos, track, 1
  {
    var w := AfterWhitespace(text, c);
    if w.Err? {
      o := SkipSpaces(text, c).cpos;
    } else {
      o := LexFailure(text, w.value, tag, track);
      SkippedTrans(text, c.cpos, w.value.cpos, o);
    }
  }

  lemma LexFailure(text: seq<byte>, w: Cursor, tag: Tag, track: nat) returns (o: nat)
    requires NulFree(text) && w.cpos <= |text|
    requires tag != TagNull ==> w.cpos >= 1
    requires At(text, w.cpos) != ' ' && At(text, w.cpos) != '\t'
    requires Lex(text, w, tag, track).Err?
    ensures Skipped(text, w.cpos, o) && FailsAt(text, o, Lex(text, w, tag, track).error)
    decreases |text| - w.cpos, track, 0
  {
    var b := At(text, w.cpos);
    if IsLayout(b) {
      var p := PassLayout(text, w);
      o := NextTokenFailure(text, p, TagAfter(b, tag), track);
      PassLayoutSkips(text, w);
      SkippedTrans(text, w.cpos, p.cpos, o);
    } else if IsUnknownByte(b) && track > 0 {
      o := NextTokenFailure(text, w, tag, track - 1);
    } else {
      DirectFailure(text, w, tag);
      o := w.cpos;
    }
  }

  lemma DirectFailure(text: seq<byte>, w: Cursor, tag: Tag)
    requires NulFree(text) && w.cpos <= |text|
    requires tag != TagNull ==> w.cpos >= 1
    requires At(text, w.cpos) != ' ' && At(text, w.cpos) != '\t' && !IsLayout(At(text, w.cpos))
    requires LexDirect(text, w, tag).Err?
    ensures FailsAt(text, w.cpos, LexDirect(text, w, tag).error)
  {
    var b := At(text, w.cpos);
    var s := w.cpos + 1;
    if b == '"' {
      var c := Step(text, w);
      var r := ScanDouble(text, c);
      assert LexDirect(text, w, tag).error == r.error;
      ScanDoubleOverrun(text, c);
      if r != Err(Overrun(|text| + 1)) {
        var k :| DoubleStop(text, s, k);
        ScanDoubleStops(text, c, k);
      }
    } else if b == '\'' {
      var c := Step(text, w);
      var r := ScanSingle(text, c);
      assert LexDirect(text, w, tag).error == r.error;
      var k := SingleStopExists(text, s);
      ScanSingleStops(text, c, k);
    }
  }

  /** Tokens carry the line and column of where they begin, and the cursor keeps tracking. */
  lemma NextTokenTracks(text: seq<byte>, c: Cursor, tag: Tag, track: nat)
    requires NulFree(text) && Tracks(text, c)
    requires tag != TagNull ==> c.cpos >= 1
    ensures var r := NextTokenF(text, c, tag, track);
              r.Ok? ==> Tracks(text, r.value.1) && TokenPlaced(text, r.value.0)
    decreases |text| - c.cpos, track, 1
  {
    if At(text, c.cpos) != NUL {
      var w := AfterWhitespace(text, c);
      if w.Ok? {
        LexTracks(text, w.value, tag, track);
      }
    }
  }

  /** The token's `line` and `column` are those of its first byte; for an anchor or alias, of the name after the sigil. */
  ghost predicate TokenPlaced(text: seq<byte>, t: Token)
  {
    var p := if t.kind == Anchor || t.kind == Alias then t.start + 1 else t.start;
    p <= |text| && t.line == LineOf(text, p) && t.column == ColumnOf(text, p)
  }

  lemma LexTracks(text: seq<byte>, w: Cursor, tag: Tag, track: nat)
    requires NulFree(text) && Tracks(text, w)
    requires tag != TagNull ==> w.cpos >= 1
    requires At(text, w.cpos) != ' ' && At(text, w.cpos) != '\t'
    ensures var r := Lex(text, w, tag, track);
              r.Ok? ==> Tracks(text, r.value.1) && TokenPlaced(text, r.value.0)
    decreases |text| - w.cpos, track, 0
  {
    var b := At(text, w.cpos);
    if IsLayout(b) {
      NextTokenTracks(text, PassLayout(text, w), TagAfter(b, tag), track);
    } else if IsUnknownByte(b) && track > 0 {
      NextTokenTracks(text, w, tag, track - 1);
    } else {
      DirectTracks(text, w, tag);
    }
  }

  lemma DirectTracks(text: seq<byte>, w: Cursor, tag: Tag)
    requires NulFree(text) && Tracks(text, w)
    requires tag != TagNull ==> w.cpos >= 1
    requires At(text, w.cpos) != ' ' && At(text, w.cpos) != '\t' && !IsLayout(At(text, w.cpos))
    ensures var r := LexDirect(text, w, tag);
              r.Ok? ==> Tracks(text, r.value.1) && TokenPlaced(text, r.value.0)
  {
    var b := At(text, w.cpos);
    if PunctKind(b).Some? {
    } else if b == '"' {
      assert LexDirect(text, w, tag) == LexQuoted(text, w, ScanDouble(text, Step(text, w)), String);
      QuotedTracks(text, w, ScanDouble(text, Step(text, w)), String);
    } else if b == '\'' {
      QuotedTracks(text, w, ScanSingle(text, Step(text, w)), StringLit);
    } else if IsNumberStart(b) {
    } else if IsIdentChar(b) {
      IdentTracks(text, w, ScanIdent(text, Step(text, w)), tag);
    }
  }

  lemma QuotedTracks(text: seq<byte>, w: Cursor, scan: Result<Cursor, Failure>, kind: TokenKind)
    requires w.cpos < |text| && Tracks(text, w) && kind != Anchor && kind != Alias
    requires scan.Ok? ==> w.cpos < scan.value.cpos < |text| && text[scan.value.cpos] == text[w.cpos] && Tracks(text, scan.value)
    ensures var r := LexQuoted(text, w, scan, kind);
              r.Ok? ==> Tracks(text, r.value.1) && TokenPlaced(text, r.value.0)
  {
  }

  lemma IdentTracks(text: seq<byte>, w: Cursor, i: Cursor, tag: Tag)
    requires w.cpos < i.cpos <= |text| && Tracks(text, w) && Tracks(text, i)
    requires tag != TagNull ==> w.cpos >= 1
    ensures var r := LexIdent(text, w, i, tag);
              r.Ok? ==> Tracks(text, r.value.1) && TokenPlaced(text, r.value.0)
  {
  }

  /**
   * `token_value` of a quoted token strips exactly its two quotes: putting
   * them back gives the token's slice.  A single-quoted value holds no quote
   * and no newline.
   */
  lemma QuotedTokenValue(text: seq<byte>, t: Token, after: nat)
    requires TokenShape(text, t, after) && (t.kind == String || t.kind == StringLit)
    ensures var q := text[t.start];
              [q] + TokenValue(text, t) + [q] == text[t.start..t.start + t.length]
    ensures |TokenValue(text, t)| == t.length - 2
    ensures t.kind == StringLit ==> forall b :: b in TokenValue(text, t) ==> b != '\'' && b != '\n'
  {
    var e := t.start + t.length;
    assert text[t.start..e] == [text[t.start]] + text[t.start + 1..e - 1] + [text[e - 1]];
    if t.kind == StringLit {
      forall b | b in TokenValue(text, t) ensures b != '\'' && b != '\n' {
        var k :| 0 <= k < |TokenValue(text, t)| && TokenValue(text, t)[k] == b;
        assert text[t.start + 1 + k] == b;
      }
    }
  }

  // ----- the tokenizer state -----

  /**
   * `Tokenizer`: the input (`text`, read through its terminator), the
   * cursor fields, the alias table the tree builder fills, and the most
   * recent token.
   */
  class Tokenizer {
    const text: seq<byte>
    var cpos: nat
    var line: nat
    var ccol: nat
    var aliases: seq<YamlAlias>
    var curToken: Token

    /** The input is a C string and the cursor is inside it or on its terminator. */
    ghost predicate Valid()
      reads this
    {
      NulFree(text) && cpos <= |text|
    }

    function Cur(): Cursor
      reads this
    {
      Cursor(cpos, line, ccol)
    }

    /** The state `parse_yaml` starts from: position 0, line 1, column 1, no aliases, a zeroed token. */
    constructor Init(input: seq<byte>)
      requires NulFree(input)
      ensures Valid() && text == input && Cur() == Cursor(0, 1, 1) && Tracks(text, Cur())
      ensures aliases == [] && curToken == Token(Unknown, 0, 0, 0, 0)
    {
      text := input;
      cpos, line, ccol := 0, 1, 1;
      aliases := [];
      curToken := Token(Unknown, 0, 0, 0, 0);
    }

    /** `peek_char`. */
    function PeekChar(): byte
      reads this
    {
      At(text, cpos)
    }

    /** `peek_token`: the current token; the cursor stays where it is. */
    method PeekToken() returns (t: Token)
      ensures t == curToken
    {
      t := curToken;
    }

    /** `skip_char`. */
    method SkipChar()
      requires Valid() && cpos < |text|
      modifies this
      ensures Valid() && Cur() == Step(text, old(Cur()))
      ensures aliases == old(aliases) && curToken == old(curToken)
    {
      var b := text[cpos];
      cpos := cpos + 1;
      if b == '\n' {
        line := line + 1;
        ccol := 1;
      } else {
        ccol := ccol + 1;
      }
    }

    /** `skip_whitespace`: spaces are passed over; a tab after them stops with TAB_INDENTATION. */
    method SkipWhitespace() returns (r: Result<(), Failure>)
      requires Valid()
      modifies this
      ensures Valid() && aliases == old(aliases) && curToken == old(curToken)
      ensures AfterWhitespace(text, old(Cur())) == if r.Ok? then Ok(Cur()) else Err(r.error)
    {
      while PeekChar() == ' '
        invariant Valid() && aliases == old(aliases) && curToken == old(curToken)
        invariant SkipSpaces(text, Cur()) == SkipSpaces(text, old(Cur()))
        decreases |text| - cpos
      {
        cpos := cpos + 1;
        ccol := ccol + 1;
      }
      if PeekChar() == '\t' {
        return Err(ParserError(YamlError(TabIndentation, "", "", cpos, 1)));
      }
      return Ok(());
    }

    /** The newline case of `next_token`. */
    method PassNewlines()
      requires Valid()
      modifies this
      ensures Valid() && Cur() == SkipNewlines(text, old(Cur()))
      ensures aliases == old(aliases) && curToken == old(curToken)
    {
      while PeekChar() == '\n'
        invariant Valid() && aliases == old(aliases) && curToken == old(curToken)
        invariant SkipNewlines(text, Cur()) == SkipNewlines(text, old(Cur()))
        decreases |text| - cpos
      {
        cpos := cpos + 1;
        line := line + 1;
      }
      ccol := 1;
    }

    /** The comment case of `next_token`. */
    method PassComment()
      requires Valid()
      modifies this
      ensures Valid() && Cur() == SkipComment(text, old(Cur()))
      ensures aliases == old(aliases) && curToken == old(curToken)
    {
      while PeekChar() != '\n' && PeekChar() != NUL
        invariant Valid() && aliases == old(aliases) && curToken == old(curToken)
        invariant SkipComment(text, Cur()) == SkipComment(text, old(Cur()))
        decreases |text| - cpos
      {
        SkipChar();
      }
    }

    /** The loop of the double-quote case: on to the closing quote, a backslash skipping one more byte. */
    method ReadDouble() returns (r: Result<(), Failure>)
      requires Valid()
      modifies this
      ensures Valid() && aliases == old(aliases) && curToken == old(curToken)
      ensures ScanDouble(text, old(Cur())) == if r.Ok? then Ok(Cur()) else Err(r.error)
    {
      while PeekChar() != '"' && PeekChar() != '\n' && PeekChar() != NUL
        invariant Valid() && aliases == old(aliases) && curToken == old(curToken)
        invariant ScanDouble(text, Cur()) == ScanDouble(text, old(Cur()))
        decreases |text| - cpos
      {
        if PeekChar() == '\\' {
          SkipChar();
          if cpos == |text| {
            // the skip below passes the terminator and the next read is outside the buffer
            return Err(Overrun(|text| + 1));
          }
        }
        SkipChar();
      }
      if PeekChar() != '"' {
        return Err(QuoteExit('"', PeekChar() == NUL));
      }
      return Ok(());
    }

    /** The loop of the single-quote case. */
    method ReadSingle() returns (r: Result<(), Failure>)
      requires Valid()
      modifies this
      ensures Valid() && aliases == old(aliases) && curToken == old(curToken)
      ensures ScanSingle(text, old(Cur())) == if r.Ok? then Ok(Cur()) else Err(r.error)
    {
      while PeekChar() != '\'' && PeekChar() != '\n' && PeekChar() != NUL
        invariant Valid() && aliases == old(aliases) && curToken == old(curToken)
        invariant ScanSingle(text, Cur()) == ScanSingle(text, old(Cur()))
        decreases |text| - cpos
      {
        SkipChar();
      }
      if PeekChar() != '\'' {
        return Err(QuoteExit('\'', PeekChar() == NUL));
      }
      return Ok(());
    }

    /** The loop of the number case. */
    method ReadNumber()
      requires Valid()
      modifies this
      ensures Valid() && Cur() == ScanNumber(text, old(Cur()))
      ensures aliases == old(aliases) && curToken == old(curToken)
    {
      while IsNumberChar(PeekChar())
        invariant Valid() && aliases == old(aliases) && curToken == old(curToken)
        invariant ScanNumber(text, Cur()) == ScanNumber(text, old(Cur()))
        decreases |text| - cpos
      {
        SkipChar();
      }
    }

    /** The loop of the identifier case. */
    method ReadIdent()
      requires Valid()
      modifies this
      ensures Valid() && Cur() == ScanIdent(text, old(Cur()))
      ensures aliases == old(aliases) && curToken == old(curToken)
    {
      while IsIdentChar(PeekChar())
        invariant Valid() && aliases == old(aliases) && curToken == old(curToken)
        invariant ScanIdent(text, Cur()) == ScanIdent(text, old(Cur()))
        decreases |text| - cpos
      {
        SkipChar();
      }
    }
  
    /**
     * `next_token`: the `goto` back to the start becomes the loop, with the
     * `alias_tag` and `loop_track` locals carried round it.
     */
    method NextToken() returns (r: Result<Token, Failure>)
      requires Valid()
      modifies this
      ensures Valid() && aliases == old(aliases)
      ensures NextTokenF(text, old(Cur()), TagNull, 1) == if r.Ok? then Ok((curToken, Cur())) else Err(r.error)
      ensures r.Ok? ==> r.value == curToken
    {
      var track: nat := 1;
      var tag := TagNull;
      while true
        invariant Valid() && aliases == old(aliases)
        invariant tag != TagNull ==> cpos >= 1
        invariant NextTokenF(text, Cur(), tag, track) == NextTokenF(text, old(Cur()), TagNull, 1)
        decreases |text| - cpos, track
      {
        if PeekChar() == NUL {
          curToken := Token(Eof, cpos, 0, line, ccol);
          return Ok(curToken);
        }
        ghost var c := Cur();
        var ws := SkipWhitespace();
        if ws.Err? {
          return Err(ws.error);
        }
        assert NextTokenF(text, c, tag, track) == Lex(text, Cur(), tag, track);
        var finished, res;
        finished, res, tag, track := LexRound(tag, track);
        if finished {
          return res;
        }
      }
    }

    /**
     * One pass through the `switch` of `next_token`: either a token (or a
     * failure) is `finished`, or the cursor has moved past layout or a sigil,
     * or the one extra round is used up, and the loop goes back to the start.
     */
    method LexRound(tag: Tag, track: nat) returns (finished: bool, r: Result<Token, Failure>, tag': Tag, track': nat)
      requires Valid() && PeekChar() != ' ' && PeekChar() != '\t' && (tag != TagNull ==> cpos >= 1)
      modifies this
      ensures Valid() && aliases == old(aliases)
      ensures finished ==> Lex(text, old(Cur()), tag, track) == if r.Ok? then Ok((curToken, Cur())) else Err(r.error)
      ensures finished && r.Ok? ==> r.value == curToken
      ensures !finished ==> (tag' != TagNull ==> cpos >= 1) && NextTokenF(text, Cur(), tag', track') == Lex(text, old(Cur()), tag, track)
      ensures !finished ==> cpos > old(cpos) || (cpos == old(cpos) && track' < track)
    {
      var b := PeekChar();
      tag', track', r := tag, track, Ok(curToken);
      if IsLayout(b) {
        finished := false;
        tag' := LexLayout(tag);
      } else if IsUnknownByte(b) && track > 0 {
        finished := false;
        track' := track - 1;
      } else {
        finished := true;
        r := LexToken(tag);
      }
    }

    /** The cases that go back to the start: a newline run, a comment, a `&` or a `*`. */
    method LexLayout(tag: Tag) returns (tag': Tag)
      requires Valid() && IsLayout(PeekChar()) && (tag != TagNull ==> cpos >= 1)
      modifies this
      ensures Valid() && aliases == old(aliases)
      ensures Cur() == PassLayout(text, old(Cur())) && tag' == TagAfter(old(PeekChar()), tag)
    {
      var b := PeekChar();
      tag' := tag;
      if b == '\n' {
        PassNewlines();
      } else if b == '#' {
        PassComment();
      } else if b == '&' {
        tag' := TagAnchor;
        SkipChar();
      } else {
        tag' := TagAlias;
        SkipChar();
      }
    }

    /** The cases that give a token, or stop the program. */
    method LexToken(tag: Tag) returns (r: Result<Token, Failure>)
      requires Valid() && PeekChar() != ' ' && PeekChar() != '\t' && !IsLayout(PeekChar())
      requires tag != TagNull ==> cpos >= 1
      modifies this
      ensures Valid() && aliases == old(aliases)
      ensures LexDirect(text, old(Cur()), tag) == if r.Ok? then Ok((curToken, Cur())) else Err(r.error)
      ensures r.Ok? ==> r.value == curToken
    {
      var b := PeekChar();
      var startLine, startColumn := line, ccol;
      if PunctKind(b).Some? {
        curToken := Token(PunctKind(b).value, cpos, 1, startLine, startColumn);
        SkipChar();
        return Ok(curToken);
      } else if b == '"' || b == '\'' {
        r := ReadQuoted();
      } else if IsNumberStart(b) {
        ReadNumberToken();
        return Ok(curToken);
      } else if IsIdentChar(b) {
        ReadIdentToken(tag);
        return Ok(curToken);
      } else if b == NUL {
        // back at the start, the terminator gives TOKEN_EOF
        curToken := Token(Eof, cpos, 0, line, ccol);
        return Ok(curToken);
      } else {
        curToken := Token(Unknown, cpos, 1, startLine, startColumn);
        return Ok(curToken);
      }
    }

    /** The quote cases of `next_token`: from the opening quote to past the closing one. */
    method ReadQuoted() returns (r: Result<Token, Failure>)
      requires Valid() && (PeekChar() == '"' || PeekChar() == '\'')
      modifies this
      ensures Valid() && aliases == old(aliases)
      ensures var w := old(Cur());
              var double := text[w.cpos] == '"';
              LexQuoted(text, w, if double then ScanDouble(text, Step(text, w)) else ScanSingle(text, Step(text, w)),
                        if double then String else StringLit)
              == if r.Ok? then Ok((curToken, Cur())) else Err(r.error)
      ensures r.Ok? ==> r.value == curToken
    {
      var b := PeekChar();
      var startPosition, startLine, startColumn := cpos, line, ccol;
      SkipChar();
      var q;
      if b == '"' {
        q := ReadDouble();
      } else {
        q := ReadSingle();
      }
      if q.Err? {
        return Err(q.error);
      }
      curToken := Token(if b == '"' then String else StringLit, startPosition, cpos - startPosition + 1, startLine, startColumn);
      SkipChar();
      return Ok(curToken);
    }

    /** The number case of `next_token`: a number-start byte and the number bytes after it. */
    method ReadNumberToken()
      requires Valid() && IsNumberStart(PeekChar())
      modifies this
      ensures Valid() && aliases == old(aliases)
      ensures var w := old(Cur());
              Cur() == ScanNumber(text, Step(text, w)) && curToken == Token(Number, w.cpos, cpos - w.cpos, w.line, w.ccol)
    {
      var startPosition, startLine, startColumn := cpos, line, ccol;
      SkipChar();
      ReadNumber();
      curToken := Token(Number, startPosition, cpos - startPosition, startLine, startColumn);
    }

    /** The identifier case of `next_token`: a boolean, an anchor or alias after a skipped sigil, or a key. */
    method ReadIdentToken(tag: Tag)
      requires Valid() && IsIdentChar(PeekChar()) && (tag != TagNull ==> cpos >= 1)
      modifies this
      ensures Valid() && aliases == old(aliases)
      ensures var w := old(Cur());
              LexIdent(text, w, ScanIdent(text, Step(text, w)), tag) == Ok((curToken, Cur()))
    {
      var startPosition, startLine, startColumn := cpos, line, ccol;
      SkipChar();
      ReadIdent();
      var length := cpos - startPosition;
      if PeekChar() != ':' &&
         ((length == 4 && text[startPosition..cpos] == "true") || (length == 5 && text[startPosition..cpos] == "false")) {
        curToken := Token(Boolean, startPosition, length, startLine, startColumn);
      } else if tag == TagAnchor {
        curToken := Token(Anchor, startPosition - 1, length + 1, startLine, startColumn);
      } else if tag == TagAlias {
        curToken := Token(TokenKind.Alias, startPosition - 1, length + 1, startLine, startColumn);
      } else {
        curToken := Token(Key, startPosition, length, startLine, startColumn);
      }
    }
  }
}

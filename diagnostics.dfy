/**
 * The error report of `paerr.c`: the name of an error kind, the filler that
 * completes the message templates through `z3_interp`, and the report
 * `parser_error` prints before it exits: the error line and its neighbours,
 * numbered from the tokenizer's current line, the caret line under the
 * offending slice, and the message.
 *
 * The input is the NUL-terminated buffer whose content is `text`.
 */
module Diagnostics {
  import opened Bytes
  import opened Wrappers
  import opened YamlTypes
  import opened ZStrings
  import opened Codecs

  // ----- yaml_error_to_string -----

  /** `yaml_error_to_string` of the enum value `code`: the kind's own name, or `UNKNOWN_ERROR`. */
  function ErrorToString(code: int): (r: seq<byte>)
    ensures r == "UNKNOWN_ERROR" <==> ErrorKindOf(code).None?
  {
    if code == 0 then "TAB_INDENTATION"
    else if code == 1 then "UNEXPECTED_TOKEN"
    else if code == 2 then "WRONG_SYNTAX"
    else if code == 3 then "KEY_REDEFINITION"
    else if code == 4 then "UNDEFINED_ALIAS"
    else if code == 5 then "REDEFINED_ALIAS"
    else if code == 6 then "MISSING_VALUE"
    else if code == 7 then "MISSING_COMMA"
    else if code == 8 then "UNCLOSED_QUOTE"
    else "UNKNOWN_ERROR"
  }

  /** Two different kinds never share a name. */
  lemma ErrorNamesDistinct(a: int, b: int)
    requires ErrorKindOf(a).Some? && ErrorKindOf(b).Some? && a != b
    ensures ErrorToString(a) != ErrorToString(b)
  {
  }

  // ----- parser_filler -----

  /** The bytes of a C string: those before its first NUL, which is what `strlen` counts. */
  function CText(s: seq<byte>): seq<byte>
  {
    Scanned(s, |s|)
  }

  /** `strncmp(item, "exp", 3 > len ? len : 3) == 0` for the id `item` of length `len`. */
  predicate NamesExp(id: seq<byte>)
  {
    var n := if |id| < 3 then |id| else 3;
    id[..n] == "exp"[..n]
  }

  /**
   * What `parser_filler` appends for the placeholder id `id`, `None` when it
   * returns false.  UNCLOSED_QUOTE has no case of its own and takes the
   * default branch.
   */
  function FillText(e: YamlError, id: seq<byte>): Option<seq<byte>>
  {
    match e.kind
    case TabIndentation => None
    case UnexpectedToken => Some(if NamesExp(id) then CText(e.exp) else CText(e.got))
    case MissingComma => Some([])
    case UnclosedQuote => Some("Unknown error occurred.")
    case _ => Some(CText(e.got))
  }

  /** `parser_filler` with the error as its context. */
  function FillerFor(e: YamlError): Filler
  {
    id => FillText(e, id)
  }

  /** `strlen(s)`. */
  method StrLen(s: seq<byte>) returns (n: nat)
    ensures n == |CText(s)|
  {
    n := 0;
    while n < |s| && s[n] != NUL
      invariant n <= |s|
      invariant forall j :: 0 <= j < n ==> s[j] != NUL
    {
      n := n + 1;
    }
    ghost var r := CText(s);
    assert forall j :: 0 <= j < |r| ==> r[j] == s[j];
  }

  /** `z3_pushl(res, s, strlen(s))`. */
  method PushCString(res: ZString, s: seq<byte>)
    requires res.Valid()
    modifies res, res.chr
    ensures res.Valid()
    ensures old(res.chr) != null ==> res.Contents() == old(res.Contents()) + CText(s)
    ensures old(res.chr) == null ==> res.Contents() == []
  {
    var n := StrLen(s);
    res.PushL(Some(s), n);
  }

  /** `parser_filler(res, &error, item, len)` for the placeholder id `item`. */
  method ParserFiller(res: ZString, e: YamlError, item: seq<byte>) returns (filled: bool)
    requires res.Valid()
    modifies res, res.chr
    ensures res.Valid() && filled == FillText(e, item).Some?
    ensures old(res.chr) != null ==>
              res.Contents() == old(res.Contents()) + (if filled then FillText(e, item).value else [])
    ensures old(res.chr) == null ==> res.Contents() == []
  {
    match e.kind {
      case TabIndentation =>
        return false;
      case UnexpectedToken =>
        var n := if |item| < 3 then |item| else 3;
        if item[..n] == "exp"[..n] {
          PushCString(res, e.exp);
        } else {
          PushCString(res, e.got);
        }
        return true;
      case MissingComma =>
        return true;
      case UnclosedQuote =>
        res.PushL(Some("Unknown error occurred."), 23);
        return true;
      case _ =>
        PushCString(res, e.got);
        return true;
    }
  }

  // ----- the message -----

  /** The placeholder `#{id}`. */
  function Hole(id: seq<byte>): seq<byte>
  {
    "#{" + id + "}"
  }

  // The fixed text of the templates.
  const TabsText: seq<byte> := "Tabs cannot be used " + "for indentation."
  const ExpectedText: seq<byte> := "Expected "
  const FoundText: seq<byte> := ", found "
  const FullStop: seq<byte> := "."
  const ExpName: seq<byte> := "exp"
  const GotName: seq<byte> := "got"
  const WrongSyntaxText: seq<byte> := "Unexpected " + "character."
  const RedefinedText: seq<byte> := " is redefined in " + "the current context."
  const AliasText: seq<byte> := "Alias "
  const UndefinedText: seq<byte> := " is undefined."
  const AlreadyText: seq<byte> := " is already defined."
  const MissingValueText: seq<byte> := "Missing value after " + "key "
  const MissingCommaText: seq<byte> := "Comma missing " + "between elements " + "in a collection."
  const UnclosedText: seq<byte> := "Reached EOF while " + "looking for " + "matching quote."

  /** `yaml_error_messages[code]`: the message template of each kind, at the kind's enum value. */
  function Template(code: nat): seq<byte>
    requires code < 9
  {
    if code == 0 then TabsText
    else if code == 1 then ExpectedText + (Hole(ExpName) + (FoundText + (Hole(GotName) + FullStop)))
    else if code == 2 then WrongSyntaxText
    else if code == 3 then Hole("") + RedefinedText
    else if code == 4 then AliasText + (Hole("") + UndefinedText)
    else if code == 5 then AliasText + (Hole("") + AlreadyText)
    else if code == 6 then MissingValueText + (Hole("") + FullStop)
    else if code == 7 then MissingCommaText
    else UnclosedText
  }

  /** The message: the kind's template interpolated with `parser_filler`. */
  function Message(e: YamlError): seq<byte>
  {
    InterpSpec(Template(e.kind.Ordinal()), FillerFor(e))
  }

  /** The message of each kind written out with its placeholders completed. */
  function Wording(e: YamlError): seq<byte>
  {
    match e.kind
    case TabIndentation => TabsText
    case UnexpectedToken => ExpectedText + CText(e.exp) + FoundText + CText(e.got) + FullStop
    case WrongSyntax => WrongSyntaxText
    case KeyRedefinition => CText(e.got) + RedefinedText
    case UndefinedAlias => AliasText + CText(e.got) + UndefinedText
    case RedefinedAlias => AliasText + CText(e.got) + AlreadyText
    case MissingValue => MissingValueText + CText(e.got) + FullStop
    case MissingComma => MissingCommaText
    case UnclosedQuote => UnclosedText
  }

  /** Text `z3_interp` copies unchanged and `z3_strcpy` copies whole. */
  predicate Clean(a: seq<byte>)
  {
    Plain(a) && NulFree(a)
  }

  lemma CleanConcat(a: seq<byte>, b: seq<byte>)
    requires Clean(a) && Clean(b)
    ensures Clean(a + b)
  {
    assert forall j :: 0 <= j < |a| ==> (a + b)[j] == a[j];
    assert forall j :: |a| <= j < |a + b| ==> (a + b)[j] == b[j - |a|];
  }

  lemma NulFreeConcat(a: seq<byte>, b: seq<byte>)
    requires NulFree(a) && NulFree(b)
    ensures NulFree(a + b)
  {
    assert forall j :: 0 <= j < |a| ==> (a + b)[j] == a[j];
    assert forall j :: |a| <= j < |a + b| ==> (a + b)[j] == b[j - |a|];
  }

  lemma HoleNulFree(id: seq<byte>)
    requires NulFree(id)
    ensures NulFree(Hole(id))
  {
    assert forall j :: 0 <= j < |id| ==> Hole(id)[j + 2] == id[j];
  }

  lemma CleanSentences()
    ensures Clean(TabsText) && Clean(WrongSyntaxText)
  {
    CleanConcat("Tabs cannot be used ", "for indentation.");
    CleanConcat("Unexpected ", "character.");
  }

  lemma CleanCommaSentence()
    ensures Clean(MissingCommaText)
  {
    CleanConcat("Comma missing ", "between elements ");
    CleanConcat("Comma missing " + "between elements ", "in a collection.");
  }

  lemma CleanQuoteSentence()
    ensures Clean(UnclosedText)
  {
    CleanConcat("Reached EOF while ", "looking for ");
    CleanConcat("Reached EOF while " + "looking for ", "matching quote.");
  }

  lemma CleanPieces()
    ensures Clean(ExpectedText) && Clean(FoundText) && Clean(FullStop) && Clean(AliasText)
    ensures Clean(UndefinedText) && Clean(AlreadyText)
  {
  }

  lemma CleanLongPieces()
    ensures Clean(RedefinedText) && Clean(MissingValueText)
  {
    CleanConcat(" is redefined in ", "the current context.");
    CleanConcat("Missing value after ", "key ");
  }

  /**
   * Interpolating each template gives the completed wording, and no template
   * holds a terminator, so `z3_strcpy` copies all of it.
   */
  lemma MessageWording(e: YamlError)
    ensures Message(e) == Wording(e)
    ensures NulFree(Template(e.kind.Ordinal()))
  {
    match e.kind {
      case TabIndentation => MessageFixed(e);
      case UnexpectedToken => MessageUnexpected(e);
      case WrongSyntax => MessageFixed(e);
      case KeyRedefinition => MessageKeyRedefinition(e);
      case UndefinedAlias => MessageAlias(e);
      case RedefinedAlias => MessageAlias(e);
      case MissingValue => MessageMissingValue(e);
      case MissingComma => MessageFixed(e);
      case UnclosedQuote => MessageFixed(e);
    }
  }

  lemma MessageFixed(e: YamlError)
    requires e.kind in {TabIndentation, WrongSyntax, MissingComma, UnclosedQuote}
    ensures Message(e) == Wording(e) && NulFree(Template(e.kind.Ordinal()))
  {
    CleanSentences();
    CleanCommaSentence();
    CleanQuoteSentence();
    MessageUnchanged(e, Template(e.kind.Ordinal()));
  }

  lemma MessageKeyRedefinition(e: YamlError)
    requires e.kind == KeyRedefinition
    ensures Message(e) == Wording(e) && NulFree(Template(e.kind.Ordinal()))
  {
    CleanLongPieces();
    MessageLeadingHole(e, RedefinedText);
  }

  lemma MessageAlias(e: YamlError)
    requires e.kind in {UndefinedAlias, RedefinedAlias}
    ensures Message(e) == Wording(e) && NulFree(Template(e.kind.Ordinal()))
  {
    CleanPieces();
    if e.kind == UndefinedAlias {
      MessageHoleBetween(e, AliasText, UndefinedText);
    } else {
      MessageHoleBetween(e, AliasText, AlreadyText);
    }
  }

  lemma MessageMissingValue(e: YamlError)
    requires e.kind == MissingValue
    ensures Message(e) == Wording(e) && NulFree(Template(e.kind.Ordinal()))
  {
    CleanPieces();
    CleanLongPieces();
    MessageHoleBetween(e, MissingValueText, FullStop);
  }

  lemma InterpPlainAll(t: seq<byte>, filler: Filler)
    requires Plain(t)
    ensures InterpSpec(t, filler) == t
  {
    InterpPlainPrefix(t, [], filler);
    assert t + [] == t;
  }

  /** A template without placeholders is its own message. */
  lemma MessageUnchanged(e: YamlError, t: seq<byte>)
    requires e.kind in {TabIndentation, WrongSyntax, MissingComma, UnclosedQuote}
    requires Template(e.kind.Ordinal()) == t && Wording(e) == t && Clean(t)
    ensures Message(e) == Wording(e) && NulFree(Template(e.kind.Ordinal()))
  {
    InterpPlainAll(t, FillerFor(e));
  }

  /** A filled placeholder at the head of a template. */
  lemma FilledHole(e: YamlError, id: seq<byte>, r: seq<byte>)
    requires forall j :: 0 <= j < |id| ==> IsPathChar(id[j]) && id[j] != '}'
    requires FillText(e, id).Some?
    ensures InterpSpec(Hole(id) + r, FillerFor(e)) == FillText(e, id).value + InterpSpec(r, FillerFor(e))
  {
    InterpHolePrefix(id, r, FillerFor(e));
  }

  /** The two placeholder names of the unexpected-token template. */
  lemma PlaceholderNames()
    ensures forall j :: 0 <= j < |ExpName| ==> IsPathChar(ExpName[j]) && ExpName[j] != '}'
    ensures forall j :: 0 <= j < |GotName| ==> IsPathChar(GotName[j]) && GotName[j] != '}'
    ensures NulFree(ExpName) && NulFree(GotName)
    ensures NamesExp(ExpName) && !NamesExp(GotName)
  {
    assert GotName[..3][0] == 'g';
  }

  /** `, found #{got}.` */
  lemma UnexpectedTail(e: YamlError)
    requires e.kind == UnexpectedToken
    ensures InterpSpec(FoundText + (Hole(GotName) + FullStop), FillerFor(e)) == FoundText + CText(e.got) + FullStop
    ensures NulFree(FoundText + (Hole(GotName) + FullStop))
  {
    var f := FillerFor(e);
    CleanPieces();
    PlaceholderNames();
    FilledHole(e, GotName, FullStop);
    InterpPlainAll(FullStop, f);
    InterpPlainPrefix(FoundText, Hole(GotName) + FullStop, f);
    HoleNulFree(GotName);
    NulFreeConcat(Hole(GotName), FullStop);
    NulFreeConcat(FoundText, Hole(GotName) + FullStop);
  }

  lemma MessageUnexpected(e: YamlError)
    requires e.kind == UnexpectedToken
    ensures Message(e) == Wording(e) && NulFree(Template(e.kind.Ordinal()))
  {
    var f := FillerFor(e);
    var r1 := FoundText + (Hole(GotName) + FullStop);
    var tail := FoundText + CText(e.got) + FullStop;
    CleanPieces();
    PlaceholderNames();
    UnexpectedTail(e);
    FilledHole(e, ExpName, r1);
    InterpPlainPrefix(ExpectedText, Hole(ExpName) + r1, f);
    assert Message(e) == ExpectedText + (CText(e.exp) + tail);
    HoleNulFree(ExpName);
    NulFreeConcat(Hole(ExpName), r1);
    NulFreeConcat(ExpectedText, Hole(ExpName) + r1);
  }

  /** A template of fixed text, a `#{}` placeholder, then fixed text. */
  lemma MessageHoleBetween(e: YamlError, head: seq<byte>, rest: seq<byte>)
    requires Clean(head) && Clean(rest) && FillText(e, []).Some?
    ensures InterpSpec(head + (Hole("") + rest), FillerFor(e)) == head + FillText(e, []).value + rest
    ensures NulFree(head + (Hole("") + rest))
  {
    var f := FillerFor(e);
    assert Hole("") == "#{" + [] + "}";
    InterpHolePrefix([], rest, f);
    InterpPlainAll(rest, f);
    InterpPlainPrefix(head, Hole("") + rest, f);
    HoleNulFree([]);
    NulFreeConcat(Hole(""), rest);
    NulFreeConcat(head, Hole("") + rest);
  }

  /** A template `#{}` followed by fixed text. */
  lemma MessageLeadingHole(e: YamlError, rest: seq<byte>)
    requires Clean(rest) && FillText(e, []).Some?
    ensures InterpSpec(Hole("") + rest, FillerFor(e)) == FillText(e, []).value + rest
    ensures NulFree(Hole("") + rest)
  {
    assert Hole("") == "#{" + [] + "}";
    InterpHolePrefix([], rest, FillerFor(e));
    InterpPlainAll(rest, FillerFor(e));
    HoleNulFree([]);
    NulFreeConcat(Hole(""), rest);
  }

  // ----- the lines around the error -----

  /** `line_start`: the greatest index at most `pos` that is 0 or follows a newline. */
  function LineStart(text: seq<byte>, pos: nat): (r: nat)
    requires pos <= |text|
    ensures r <= pos && (r == 0 || text[r - 1] == '\n')
    ensures forall k :: r <= k < pos ==> text[k] != '\n'
    decreases pos
  {
    if pos == 0 || text[pos - 1] == '\n' then pos else LineStart(text, pos - 1)
  }

  /** `line_end`: the first index at least `pos` holding a newline or the terminator. */
  function LineEnd(text: seq<byte>, pos: nat): (r: nat)
    requires pos <= |text|
    ensures pos <= r <= |text| && (At(text, r) == '\n' || At(text, r) == NUL)
    ensures forall k :: pos <= k < r ==> text[k] != '\n' && text[k] != NUL
    decreases |text| - pos
  {
    if At(text, pos) == '\n' || At(text, pos) == NUL then pos else LineEnd(text, pos + 1)
  }

  /** `text[a..b]` is a whole line: it starts the text or follows a newline, and ends at one or at the end. */
  predicate IsLine(text: seq<byte>, a: nat, b: nat)
  {
    a <= b <= |text| && (a == 0 || text[a - 1] == '\n') && (b == |text| || text[b] == '\n') &&
    forall k :: a <= k < b ==> text[k] != '\n'
  }

  /** The line holding index `p` is the one `line_start` and `line_end` delimit. */
  lemma LineOfPosition(text: seq<byte>, a: nat, b: nat, p: nat)
    requires NulFree(text) && IsLine(text, a, b) && a <= p <= b
    ensures LineStart(text, p) == a && LineEnd(text, p) == b
  {
    var s, e := LineStart(text, p), LineEnd(text, p);
    assert a > 0 ==> text[a - 1] == '\n';
    assert s > 0 ==> text[s - 1] == '\n';
    assert b < |text| ==> text[b] == '\n';
    assert e < |text| ==> text[e] == '\n';
  }

  /** The 256-byte buffers the lines are copied into. */
  const LineBufferSize: nat := 256

  /** A line length cut down to what a line buffer holds besides its terminator. */
  function Clamp(n: nat): (r: nat)
    ensures r <= n && r < LineBufferSize
    ensures n < LineBufferSize ==> r == n
  {
    if n >= LineBufferSize then LineBufferSize - 1 else n
  }

  /** `spaces * column`, `^ * len`, and the newline: the caret line. */
  function CaretLine(column: nat, len: nat): seq<byte>
  {
    seq(column, _ => ' ') + seq(len, _ => '^') + ['\n']
  }

  /**
   * The parts of the report `parser_error` prints: the kind's name, the line
   * before the error line, the error line, the line after it (a line is
   * empty when it is not printed), the caret line and the message.
   * `Printed` lays them out with their gutters.
   */
  datatype Excerpt = Excerpt(name: seq<byte>, previous: seq<byte>, current: seq<byte>, next: seq<byte>,
                             carets: seq<byte>, message: seq<byte>)

  /** The line before the one starting at `ls`, cut to a buffer; none on the first line. */
  function PreviousLine(text: seq<byte>, ls: nat): seq<byte>
    requires ls <= |text|
  {
    if ls == 0 then []
    else
      var ps := LineStart(text, ls - 1);
      text[ps..ps + Clamp(ls - 1 - ps)]
  }

  /** The line after the one ending at `le`, cut to a buffer; none on the last line. */
  function NextLine(text: seq<byte>, le: nat): seq<byte>
    requires le <= |text|
  {
    if le == |text| then []
    else
      var ne := LineEnd(text, le + 1);
      text[le + 1..le + 1 + Clamp(ne - (le + 1))]
  }

  /** The report of `error` on `text`, with the neighbouring lines guarded and clamped. */
  function ExcerptOf(text: seq<byte>, e: YamlError): Excerpt
    requires NulFree(text) && e.pos <= |text|
  {
    var ls, le := LineStart(text, e.pos), LineEnd(text, e.pos);
    Excerpt(ErrorToString(e.kind.Ordinal()), PreviousLine(text, ls), text[ls..ls + Clamp(le - ls)],
            NextLine(text, le), CaretLine(e.pos - ls, e.len), Message(e))
  }

  /**
   * The report as `parser_error` computes it, `None` where it reads outside
   * the input or writes past a line buffer: `line_start - 1` wraps around on
   * the first line, `line_end + 1` passes the terminator on the last line,
   * and the previous and next lines are copied without a length check.
   */
  function ExcerptAsWritten(text: seq<byte>, e: YamlError): Option<Excerpt>
    requires NulFree(text) && e.pos <= |text|
  {
    var ls, le := LineStart(text, e.pos), LineEnd(text, e.pos);
    if ls == 0 then None
    else
      var ps := LineStart(text, ls - 1);
      if ls - 1 - ps >= LineBufferSize then None
      else if le == |text| then None
      else
        var ne := LineEnd(text, le + 1);
        if ne - (le + 1) >= LineBufferSize then None
        else
          Some(Excerpt(ErrorToString(e.kind.Ordinal()), text[ps..ls - 1], text[ls..ls + Clamp(le - ls)],
                       text[le + 1..ne], CaretLine(e.pos - ls, e.len), Message(e)))
  }

  // ----- the printed report -----

  /** The decimal digit `d`. */
  function Digit(d: nat): (r: byte)
    requires d < 10
    ensures IsDigit(r) && r as int - '0' as int == d
  {
    (48 + d) as char
  }

  /** `%zu`: the decimal digits of `n`, most significant first, with no leading zero. */
  function Decimal(n: nat): (r: seq<byte>)
    ensures 1 <= |r| && (n >= 10 ==> r[0] != '0')
    decreases n
  {
    if n < 10 then [Digit(n)] else Decimal(n / 10) + [Digit(n % 10)]
  }

  /** The number a run of decimal digits spells. */
  function DigitsValue(s: seq<byte>): nat
    requires forall i :: 0 <= i < |s| ==> IsDigit(s[i])
  {
    if |s| == 0 then 0
    else
      var c := s[|s| - 1];
      assert IsDigit(c);
      10 * DigitsValue(s[..|s| - 1]) + (c as int - '0' as int)
  }

  /** `Decimal` writes digits only, and they spell `n` back. */
  lemma {:induction false} DecimalValue(n: nat)
    ensures forall i :: 0 <= i < |Decimal(n)| ==> IsDigit(Decimal(n)[i])
    ensures DigitsValue(Decimal(n)) == n
    decreases n
  {
    if n >= 10 {
      DecimalValue(n / 10);
      var d := Decimal(n);
      assert d[..|d| - 1] == Decimal(n / 10);
    }
  }

  /** Below 1000, at most three digits. */
  lemma {:induction false} DecimalShort(n: nat)
    requires n < 1000
    ensures |Decimal(n)| <= 3
  {
    if n >= 100 {
      assert |Decimal(n / 10 / 10)| == 1;
      assert |Decimal(n / 10)| == 2;
    } else if n >= 10 {
      assert |Decimal(n / 10)| == 1;
    }
  }

  /** `%3zu |`: the line number right-aligned in three columns, a space and a bar. */
  function Gutter(n: nat): seq<byte>
  {
    var d := Decimal(n);
    seq(if |d| < 3 then 3 - |d| else 0, _ => ' ') + d + " |"
  }

  /** What is written before the caret line: four spaces and the bar. */
  const CaretGutter: seq<byte> := "    |"

  /** What is written before the kind's name. */
  const Heading: seq<byte> := "YamlError::"

  const Newline: seq<byte> := "\n"

  /**
   * Every gutter is padding, the number's digits and ` |`; for a line number
   * below 1000 it is exactly as wide as the caret line's prefix, so the
   * carets stand under the bytes they mark.
   */
  lemma GutterAligned(n: nat)
    ensures var d := Decimal(n); var g := Gutter(n);
            |g| >= |d| + 2 && g[|g| - 2..] == " |" && g[|g| - 2 - |d|..|g| - 2] == d &&
            forall i :: 0 <= i < |g| - 2 - |d| ==> g[i] == ' '
    ensures n < 1000 ==> |Gutter(n)| == |CaretGutter|
  {
    if n < 1000 {
      DecimalShort(n);
    }
  }

  /** `size_t` arithmetic on the tokenizer's line: `line - 1` and `line + 1` modulo 2^64. */
  const LineMod: nat := 0x1_0000_0000_0000_0000

  function LineBefore(line: nat): nat
    requires line < LineMod
  {
    (line + LineMod - 1) % LineMod
  }

  function LineAfter(line: nat): nat
    requires line < LineMod
  {
    (line + 1) % LineMod
  }

  /** One numbered line of the report: `%3zu |%s\n`. */
  function Row(n: nat, bytes: seq<byte>): seq<byte>
  {
    Gutter(n) + bytes + Newline
  }

  /** The heading: `YamlError::%s\n` with the kind's name. */
  function Top(x: Excerpt): seq<byte>
  {
    Heading + x.name + Newline
  }

  /** The previous line's row, written only when there is a previous line. */
  function Above(x: Excerpt, line: nat): seq<byte>
    requires line < LineMod
  {
    if |x.previous| > 0 then Row(LineBefore(line), x.previous) else []
  }

  /** The caret line behind its prefix, then the next line's row when there is one. */
  function Below(x: Excerpt, line: nat): seq<byte>
    requires line < LineMod
  {
    CaretGutter + x.carets + (if |x.next| > 0 then Row(LineAfter(line), x.next) else [])
  }

  /** A blank line, then the message: `\n%s\n`. */
  function Tail(x: Excerpt): seq<byte>
  {
    Newline + x.message + Newline
  }

  /**
   * The bytes `parser_error` writes to standard error for the report `x`,
   * with `line` the tokenizer's current line: the `YamlError::` heading, the
   * previous line (when there is one), the error line, the caret line behind
   * its prefix, the next line (when there is one), a blank line and the
   * message.
   */
  function Printed(x: Excerpt, line: nat): seq<byte>
    requires line < LineMod
  {
    Top(x) + Above(x, line) + Row(line, x.current) + Below(x, line) + Tail(x)
  }

  /**
   * The printed report opens with the kind's name after `YamlError::`, ends
   * with the message after a blank line, and numbers the error line with
   * the tokenizer's line, after the previous line when there is one.
   */
  lemma PrintedFrame(x: Excerpt, line: nat)
    requires line < LineMod
    ensures var p := Printed(x, line); var h := Heading + x.name + Newline; var t := Newline + x.message + Newline;
            |h| + |t| <= |p| && p[..|h|] == h && p[|p| - |t|..] == t
    ensures var p := Printed(x, line); var n := |Top(x)|;
            var b := if |x.previous| > 0 then Row(LineBefore(line), x.previous) else [];
            var r := Row(line, x.current);
            n + |b| + |r| <= |p| && p[n..n + |b|] == b && p[n + |b|..n + |b| + |r|] == r
  {
    FiveParts(Top(x), Above(x, line), Row(line, x.current), Below(x, line), Tail(x));
  }

  /** The neighbours' numbers are one less and one more, away from the ends of `size_t`. */
  lemma NeighbourLines(line: nat)
    requires line < LineMod
    ensures 1 <= line ==> LineBefore(line) == line - 1
    ensures line == 0 ==> LineBefore(line) == LineMod - 1
    ensures line + 1 < LineMod ==> LineAfter(line) == line + 1
    ensures line + 1 == LineMod ==> LineAfter(line) == 0
  {
  }

  /** Where each of five concatenated pieces sits in the whole. */
  lemma FiveParts(h: seq<byte>, b: seq<byte>, r: seq<byte>, m: seq<byte>, t: seq<byte>)
    ensures var p := h + b + r + m + t;
            p[..|h|] == h && p[|h|..|h| + |b|] == b && p[|h| + |b|..|h| + |b| + |r|] == r &&
            p[|p| - |t|..] == t
  {
    var p := h + b + r + m + t;
    assert p == h + (b + r + m + t);
    assert p == (h + b) + (r + m + t);
    assert p == (h + b + r) + (m + t);
    assert p == (h + b + r + m) + t;
  }

  // ----- properties of the report -----

  /** An error on the first line sends `prev_start` below the start of the input. */
  lemma AsWrittenFirstLine(text: seq<byte>, e: YamlError)
    requires NulFree(text) && e.pos <= |text|
    requires forall k :: 0 <= k < e.pos ==> text[k] != '\n'
    ensures ExcerptAsWritten(text, e) == None
  {
    assert LineStart(text, e.pos) == 0;
  }

  /** An error on the last line sends `next_start` past the terminator. */
  lemma AsWrittenLastLine(text: seq<byte>, e: YamlError)
    requires NulFree(text) && e.pos <= |text|
    requires forall k :: e.pos <= k < |text| ==> text[k] != '\n'
    ensures ExcerptAsWritten(text, e) == None
  {
    assert LineEnd(text, e.pos) == |text| by {
      LineOfPosition(text, LineStart(text, e.pos), |text|, e.pos);
    }
  }

  /** A previous line of 256 bytes or more overflows `prev_buffer`. */
  lemma AsWrittenLongPrevious(text: seq<byte>, e: YamlError)
    requires NulFree(text) && e.pos <= |text|
    requires var ls := LineStart(text, e.pos); ls > 0 && ls - 1 - LineStart(text, ls - 1) >= LineBufferSize
    ensures ExcerptAsWritten(text, e) == None
  {
  }

  /**
   * A one-line input: every error in it is both on the first and on the last
   * line.  `a 1` is the key `a` followed by a number where its colon should
   * be, UNEXPECTED_TOKEN at the `1`.
   */
  lemma AsWrittenOneLine()
    ensures ExcerptAsWritten("a 1", YamlError(UnexpectedToken, "TOKEN_COLON", "TOKEN_NUMBER", 2, 1)) == None
    ensures ExcerptOf("a 1", YamlError(UnexpectedToken, "TOKEN_COLON", "TOKEN_NUMBER", 2, 1)).current == "a 1"
  {
    var text: seq<byte> := "a 1";
    var e := YamlError(UnexpectedToken, "TOKEN_COLON", "TOKEN_NUMBER", 2, 1);
    assert text[0] == 'a' && text[1] == ' ' && text[2] == '1';
    AsWrittenFirstLine(text, e);
    assert LineStart(text, 2) == 0 && LineEnd(text, 2) == 3;
  }

  /** Wherever the code as written stays within its buffers, it computes the guarded report. */
  lemma AsWrittenAgrees(text: seq<byte>, e: YamlError)
    requires NulFree(text) && e.pos <= |text| && ExcerptAsWritten(text, e).Some?
    ensures ExcerptAsWritten(text, e).value == ExcerptOf(text, e)
  {
  }

  /** The error line is the line holding the position, cut to its buffer. */
  lemma CurrentLineShape(text: seq<byte>, pos: nat)
    requires NulFree(text) && pos <= |text|
    ensures var ls, le := LineStart(text, pos), LineEnd(text, pos);
            var c := text[ls..ls + Clamp(le - ls)];
            IsLine(text, ls, le) && ls <= pos <= le &&
            c == text[ls..ls + |c|] && |c| < LineBufferSize &&
            (le - ls < LineBufferSize ==> |c| == le - ls)
  {
  }

  /** The previous line: none on the first line, else the line ending just before `ls`, cut to its buffer. */
  lemma PreviousLineShape(text: seq<byte>, ls: nat)
    requires NulFree(text) && ls <= |text| && (ls == 0 || text[ls - 1] == '\n')
    ensures ls == 0 ==> PreviousLine(text, ls) == []
    ensures ls > 0 ==> var ps, p := LineStart(text, ls - 1), PreviousLine(text, ls);
                       IsLine(text, ps, ls - 1) &&
                       p == text[ps..ps + |p|] && |p| < LineBufferSize &&
                       (ls - 1 - ps < LineBufferSize ==> |p| == ls - 1 - ps)
  {
  }

  /** The next line: none on the last line, else the line starting just after `le`, cut to its buffer. */
  lemma NextLineShape(text: seq<byte>, le: nat)
    requires NulFree(text) && le <= |text| && (le == |text| || text[le] == '\n')
    ensures le == |text| ==> NextLine(text, le) == []
    ensures le < |text| ==> var ne, n := LineEnd(text, le + 1), NextLine(text, le);
                            IsLine(text, le + 1, ne) &&
                            n == text[le + 1..le + 1 + |n|] && |n| < LineBufferSize &&
                            (ne - (le + 1) < LineBufferSize ==> |n| == ne - (le + 1))
  {
  }

  /** The caret line: a space per column before the error, a caret per byte of it, then a newline. */
  lemma ExcerptCarets(text: seq<byte>, e: YamlError)
    requires NulFree(text) && e.pos <= |text|
    ensures var c, column := ExcerptOf(text, e).carets, e.pos - LineStart(text, e.pos);
            |c| == column + e.len + 1 && c[column + e.len] == '\n' &&
            (forall k :: 0 <= k < column ==> c[k] == ' ') &&
            (forall k :: column <= k < column + e.len ==> c[k] == '^')
  {
  }

  /** The report names the kind and carries its completed message. */
  lemma ExcerptMessage(text: seq<byte>, e: YamlError)
    requires NulFree(text) && e.pos <= |text|
    ensures ExcerptOf(text, e).name != "UNKNOWN_ERROR"
    ensures ExcerptOf(text, e).message == Wording(e)
  {
    ErrorKindOfOrdinal(e.kind);
    MessageWording(e);
  }

  // ----- parser_error -----

  /** The `line_start` loop (and the `prev_start` loop, started one byte earlier). */
  method FindLineStart(text: seq<byte>, pos: nat) returns (ls: nat)
    requires pos <= |text|
    ensures ls == LineStart(text, pos)
  {
    ls := pos;
    while ls > 0 && text[ls - 1] != '\n'
      invariant ls <= pos && LineStart(text, ls) == LineStart(text, pos)
    {
      ls := ls - 1;
    }
  }

  /** The `line_end` loop (and the `next_end` loop). */
  method FindLineEnd(text: seq<byte>, pos: nat) returns (le: nat)
    requires pos <= |text|
    ensures le == LineEnd(text, pos)
  {
    le := pos;
    while At(text, le) != '\n' && At(text, le) != NUL
      invariant pos <= le <= |text| && LineEnd(text, le) == LineEnd(text, pos)
      decreases |text| - le
    {
      le := le + 1;
    }
  }

  /** The copy of a line of `n` bytes at `start` into a line buffer. */
  method CopyLine(text: seq<byte>, start: nat, n: nat) returns (line: seq<byte>)
    requires start + n <= |text|
    ensures line == text[start..start + Clamp(n)]
  {
    var length := n;
    if length >= LineBufferSize {
      length := LineBufferSize - 1;
    }
    line := text[start..start + length];
  }

  /** The `carets` buffer: `memset` of the spaces and the carets, then the newline and the NUL. */
  method Carets(column: nat, len: nat) returns (carets: seq<byte>)
    ensures carets == CaretLine(column, len)
  {
    var buf := new byte[len + column + 2](_ => NUL);
    forall k | 0 <= k < column {
      buf[k] := ' ';
    }
    forall k | column <= k < column + len {
      buf[k] := '^';
    }
    buf[len + column] := '\n';
    buf[len + column + 1] := NUL;
    carets := buf[..len + column + 1];
    assert forall k :: 0 <= k < |carets| ==> carets[k] == CaretLine(column, len)[k];
  }

  /** The `prev_buffer` copy, guarded to lines after the first. */
  method ReadPrevious(text: seq<byte>, lineStart: nat) returns (previous: seq<byte>)
    requires lineStart <= |text|
    ensures previous == PreviousLine(text, lineStart)
  {
    previous := [];
    if lineStart > 0 {
      var prevStart := FindLineStart(text, lineStart - 1);
      previous := CopyLine(text, prevStart, lineStart - prevStart - 1);
    }
  }

  /** The `next_buffer` copy, guarded to lines ending at a newline. */
  method ReadNext(text: seq<byte>, lineEnd: nat) returns (next: seq<byte>)
    requires NulFree(text) && lineEnd <= |text|
    ensures next == NextLine(text, lineEnd)
  {
    next := [];
    if At(text, lineEnd) != NUL {
      var nextEnd := FindLineEnd(text, lineEnd + 1);
      next := CopyLine(text, lineEnd + 1, nextEnd - (lineEnd + 1));
    }
  }

  /** The message: `z3_strcpy` of the kind's template, then `z3_interp` with `parser_filler`. */
  method ReadMessage(e: YamlError) returns (message: seq<byte>)
    ensures message == Message(e)
  {
    MessageWording(e);
    var template := new ZString.StrCpy(Template(e.kind.Ordinal()));
    var filled := Interp(template, FillerFor(e));
    message := filled.Contents();
  }

  /**
   * `parser_error(tokenizer, error)` up to its exit: the report it computes,
   * with the previous line read only when there is one, the next line only
   * when the error line ends at a newline, and both clamped to their buffers;
   * and the bytes it prints, numbered from the tokenizer's `line`.
   */
  method ParserError(text: seq<byte>, e: YamlError, line: nat) returns (x: Excerpt, printed: seq<byte>)
    requires NulFree(text) && e.pos <= |text| && line < LineMod
    ensures x == ExcerptOf(text, e)
    ensures printed == Printed(x, line)
  {
    var lineStart := FindLineStart(text, e.pos);
    var lineEnd := FindLineEnd(text, e.pos);
    var current := CopyLine(text, lineStart, lineEnd - lineStart);
    var previous := ReadPrevious(text, lineStart);
    var next := ReadNext(text, lineEnd);
    var carets := Carets(e.pos - lineStart, e.len);
    var message := ReadMessage(e);
    x := Excerpt(ErrorToString(e.kind.Ordinal()), previous, current, next, carets, message);
    printed := Top(x);
    if |previous| > 0 {
      printed := printed + Row(LineBefore(line), previous);
    }
    printed := printed + Row(line, current);
    printed := printed + Below(x, line);
    printed := printed + Tail(x);
  }
}

/**
 * The text codecs of z3_string.h: `z3_escape`, `z3_unescape` and the
 * `#{id}` template filler `z3_interp`.  Each is a reference function on byte
 * sequences and a method that builds a `ZString` the way the source does,
 * proved to produce the reference function's bytes.
 */
module Codecs {
  import opened Bytes
  import opened Wrappers
  import opened ZStrings

  const HexDigits: seq<byte> := "0123456789abcdef"

  /** The letter `z3_escape` writes after a backslash for the ten named bytes. */
  function NamedEscape(c: byte): Option<byte>
  {
    if c == 7 as char then Some('a')
    else if c == 8 as char then Some('b')
    else if c == 12 as char then Some('f')
    else if c == '\n' then Some('n')
    else if c == '\r' then Some('r')
    else if c == '\t' then Some('t')
    else if c == 11 as char then Some('v')
    else if c == '\\' then Some('\\')
    else if c == '"' then Some('"')
    else if c == '\'' then Some('\'')
    else None
  }

  /** The byte `z3_unescape` produces for a backslash followed by one of the ten letters. */
  function UnescapeLetter(c: byte): Option<byte>
  {
    if c == 'a' then Some(7 as char)
    else if c == 'b' then Some(8 as char)
    else if c == 'f' then Some(12 as char)
    else if c == 'n' then Some('\n')
    else if c == 'r' then Some('\r')
    else if c == 't' then Some('\t')
    else if c == 'v' then Some(11 as char)
    else if c == '\\' then Some('\\')
    else if c == '"' then Some('"')
    else if c == '\'' then Some('\'')
    else None
  }

  predicate IsPrintable(c: byte)
  {
    0x20 <= c as int <= 0x7E
  }

  /** The escape of one byte. */
  function EscapeByte(c: byte): seq<byte>
  {
    if NamedEscape(c).Some? then ['\\', NamedEscape(c).value]
    else if !IsPrintable(c) then ['\\', 'x', HexDigits[c as int / 16], HexDigits[c as int % 16]]
    else [c]
  }

  /** `z3_escape` of the bytes it reads: the concatenation of their escapes. */
  function EscapeSpec(s: seq<byte>): seq<byte>
  {
    if s == [] then [] else EscapeByte(s[0]) + EscapeSpec(s[1..])
  }

  /** The bytes a `while (l < len && *input)` scan reads: up to `len` bytes, stopping at a NUL. */
  function Scanned(input: seq<byte>, len: nat): (r: seq<byte>)
    requires len <= |input|
    ensures |r| <= len && r == input[..|r|] && NulFree(r)
    ensures |r| < len ==> input[|r|] == NUL
  {
    if len == 0 || input[0] == NUL then [] else [input[0]] + Scanned(input[1..], len - 1)
  }

  function HexValue(c: byte): nat
  {
    if '0' <= c <= '9' then c as int - '0' as int
    else if 'a' <= c <= 'f' then c as int - 'a' as int + 10
    else if 'A' <= c <= 'F' then c as int - 'A' as int + 10
    else 0
  }

  /** The byte of `\xHL`: the second digit contributes only when it is a hex digit. */
  function HexByte(h: byte, l: byte): byte
  {
    ((HexValue(h) % 16) * 16 + (if IsXDigit(l) then HexValue(l) % 16 else 0)) as char
  }

  /** `buf` from index `k` on, or nothing when `k` is past its end. */
  function From(buf: seq<byte>, k: nat): seq<byte>
  {
    if k <= |buf| then buf[k..] else []
  }

  function Cons(a: seq<byte>, rest: Option<seq<byte>>): Option<seq<byte>>
  {
    if rest.None? then None else Some(a + rest.value)
  }

  /** One unit of `z3_unescape`: the bytes it pushes, how far `input` moves and how far `l` counts. */
  datatype Unit = Unit(out: seq<byte>, skip: nat, cost: nat)

  /**
   * The unit of `z3_unescape` at the start of the non-empty `buf`; `None`
   * when deciding it reads beyond `buf`.  A `\xHH` escape counts two, every
   * other unit one.  `\x` before a non-hex byte keeps `\x` and that byte and
   * skips the byte after it.
   */
  function UnescapeUnitOf(buf: seq<byte>): (r: Option<Unit>)
    requires |buf| > 0
    ensures r.Some? ==> r.value.skip >= 1 && r.value.cost >= 1
  {
    if buf[0] != '\\' then Some(Unit([buf[0]], 1, 1))
    else if |buf| < 2 then None
    else if UnescapeLetter(buf[1]).Some? then Some(Unit([UnescapeLetter(buf[1]).value], 2, 1))
    else if buf[1] == 'x' then
      if |buf| < 3 then None
      else if !IsXDigit(buf[2]) then Some(Unit(['\\', 'x', buf[2]], 4, 1))
      else if |buf| < 4 then None
      else Some(Unit([HexByte(buf[2], buf[3])], 4, 2))
    else Some(Unit(['\\', buf[1]], 2, 1))
  }

  /**
   * `z3_unescape` of the buffer `buf` with `budget` steps of its counter `l`
   * left: the units up to the counter's bound or a NUL, `None` when the scan
   * reads beyond `buf`.
   */
  function UnescapeSpec(buf: seq<byte>, budget: int): Option<seq<byte>>
    decreases |buf|
  {
    if budget <= 0 then Some([])
    else if |buf| == 0 then None
    else if buf[0] == NUL then Some([])
    else
      match UnescapeUnitOf(buf)
      case None => None
      case Some(u) => Cons(u.out, UnescapeSpec(From(buf, u.skip), budget - u.cost))
  }

  // ----- properties of the escape -----

  lemma HexDigitsDecode(k: nat)
    requires k < 16
    ensures IsXDigit(HexDigits[k]) && HexValue(HexDigits[k]) == k
  {
  }

  lemma EscapeBytePrintable(c: byte)
    ensures forall i :: 0 <= i < |EscapeByte(c)| ==> IsPrintable(EscapeByte(c)[i])
  {
    if NamedEscape(c).None? && !IsPrintable(c) {
      assert forall k :: 0 <= k < 16 ==> IsPrintable(HexDigits[k]);
    }
  }

  /** Everything `z3_escape` writes is printable ASCII. */
  lemma {:induction false} EscapePrintable(s: seq<byte>)
    ensures forall i :: 0 <= i < |EscapeSpec(s)| ==> IsPrintable(EscapeSpec(s)[i])
  {
    if s != [] {
      EscapeBytePrintable(s[0]);
      EscapePrintable(s[1..]);
      var e := EscapeSpec(s);
      assert e == EscapeByte(s[0]) + EscapeSpec(s[1..]);
      forall i | 0 <= i < |e| ensures IsPrintable(e[i]) {
        if i >= |EscapeByte(s[0])| {
          assert e[i] == EscapeSpec(s[1..])[i - |EscapeByte(s[0])|];
        }
      }
    }
  }

  /** What becomes of each byte: printable bytes other than the quotes and backslash are kept. */
  lemma EscapeByteCases(c: byte)
    ensures IsPrintable(c) && c != '\\' && c != '"' && c != '\'' ==> EscapeByte(c) == [c]
    ensures NamedEscape(c).Some? ==> |EscapeByte(c)| == 2 && EscapeByte(c)[0] == '\\'
    ensures !IsPrintable(c) && NamedEscape(c).None? ==>
              |EscapeByte(c)| == 4 && EscapeByte(c)[..2] == ['\\', 'x'] &&
              HexValue(EscapeByte(c)[2]) * 16 + HexValue(EscapeByte(c)[3]) == c as int
  {
    if !IsPrintable(c) && NamedEscape(c).None? {
      HexDigitsDecode(c as int / 16);
      HexDigitsDecode(c as int % 16);
    }
  }

  lemma UnescapeNamedUnit(c: byte, rest: seq<byte>)
    requires NamedEscape(c).Some?
    ensures UnescapeUnitOf(EscapeByte(c) + rest) == Some(Unit([c], 2, 1))
  {
    var buf := EscapeByte(c) + rest;
    assert buf[0] == '\\' && buf[1] == NamedEscape(c).value;
    assert UnescapeLetter(buf[1]) == Some(c);
  }

  lemma UnescapeHexUnit(c: byte, rest: seq<byte>)
    requires NamedEscape(c).None? && !IsPrintable(c)
    ensures UnescapeUnitOf(EscapeByte(c) + rest) == Some(Unit([c], 4, 2))
  {
    var buf := EscapeByte(c) + rest;
    var h, l := HexDigits[c as int / 16], HexDigits[c as int % 16];
    HexByteOfDigits(c);
    assert buf[0] == '\\' && buf[1] == 'x' && buf[2] == h && buf[3] == l;
  }

  /** The two hex digits `z3_escape` writes decode to the byte. */
  lemma HexByteOfDigits(c: byte)
    ensures IsXDigit(HexDigits[c as int / 16]) && IsXDigit(HexDigits[c as int % 16])
    ensures HexByte(HexDigits[c as int / 16], HexDigits[c as int % 16]) == c
  {
    HexDigitsDecode(c as int / 16);
    HexDigitsDecode(c as int % 16);
  }

  /** Unescaping one escaped byte gives it back, moves past its escape and counts `d`, at most its length. */
  lemma UnescapeOneByte(c: byte, rest: seq<byte>) returns (d: nat)
    ensures 1 <= d <= |EscapeByte(c)|
    ensures UnescapeUnitOf(EscapeByte(c) + rest) == Some(Unit([c], |EscapeByte(c)|, d))
  {
    if NamedEscape(c).Some? {
      UnescapeNamedUnit(c, rest);
      d := 1;
    } else if !IsPrintable(c) {
      UnescapeHexUnit(c, rest);
      d := 2;
    } else {
      assert (EscapeByte(c) + rest)[0] == c;
      d := 1;
    }
  }

  /**
   * Round trip: unescaping the NUL-terminated escape of a NUL-free `s`, with
   * a length at least that of the escape, gives back `s`.
   */
  lemma UnescapeEscape(s: seq<byte>, t: seq<byte>, budget: int)
    requires NulFree(s) && |t| > 0 && t[0] == NUL && budget >= |EscapeSpec(s)|
    ensures UnescapeSpec(EscapeSpec(s) + t, budget) == Some(s)
  {
    if s != [] {
      var rest := EscapeSpec(s[1..]) + t;
      assert EscapeSpec(s) + t == EscapeByte(s[0]) + rest;
      var d := UnescapeByteHead(s[0], rest, budget);
      UnescapeEscape(s[1..], t, budget - d);
      assert [s[0]] + s[1..] == s;
    } else {
      assert EscapeSpec(s) + t == t;
    }
  }

  /** The first unit of an escaped byte followed by more text is that byte; `d` of the counter is spent on it. */
  lemma UnescapeByteHead(c: byte, rest: seq<byte>, budget: int) returns (d: nat)
    requires c != NUL && budget >= |EscapeByte(c)|
    ensures 1 <= d <= |EscapeByte(c)|
    ensures UnescapeSpec(EscapeByte(c) + rest, budget) == Cons([c], UnescapeSpec(rest, budget - d))
  {
    var buf := EscapeByte(c) + rest;
    d := UnescapeOneByte(c, rest);
    assert buf[0] == EscapeByte(c)[0] != NUL;
    assert From(buf, |EscapeByte(c)|) == rest;
    UnescapeSpecStep(buf, budget);
  }

  /** The instance the source's callers use: a `z3_escape` result read back with its own length. */
  lemma EscapeRoundTrip(s: seq<byte>)
    requires NulFree(s)
    ensures UnescapeSpec(EscapeSpec(s) + [NUL], |EscapeSpec(s)|) == Some(s)
  {
    UnescapeEscape(s, [NUL], |EscapeSpec(s)|);
  }

  /** An unrecognised escape keeps the backslash and the byte after it. */
  lemma UnescapeUnknown(c: byte, rest: seq<byte>, budget: int)
    requires budget > 0 && UnescapeLetter(c).None? && c != 'x'
    ensures UnescapeSpec(['\\', c] + rest, budget) == Cons(['\\', c], UnescapeSpec(rest, budget - 1))
  {
    assert From(['\\', c] + rest, 2) == rest;
  }

  // ----- the methods -----

  /** `z3_escape(input, len)`. */
  method Escape(input: seq<byte>, len: nat) returns (s: ZString)
    requires len <= |input|
    ensures fresh(s) && s.Valid() && s.Contents() == EscapeSpec(Scanned(input, len))
  {
    s := new ZString.Str(32);
    var l := 0;
    while l < len && input[l] != NUL
      invariant l <= len && s.Valid() && s.chr != null && fresh(s) && fresh(s.chr)
      invariant NulFree(input[..l])
      invariant s.Contents() == EscapeSpec(input[..l])
      decreases len - l
    {
      var c := input[l];
      ghost var pre := input[..l];
      PushEscaped(s, c);
      assert NulFree(input[..l + 1]) && s.Contents() == EscapeSpec(input[..l + 1]) by {
        PrefixSnoc(input, l);
        EscapeAppend(pre, c);
      }
      l := l + 1;
    }
    assert Scanned(input, len) == input[..l] by {
      ScannedStops(input, len, l);
    }
    s.Ensure0();
  }

  /** The body of the `switch` in `z3_escape`: push the escape of one byte. */
  method PushEscaped(s: ZString, c: byte)
    requires s.Valid() && s.chr != null
    modifies s, s.chr
    ensures s.Valid() && s.chr != null && (s.chr == old(s.chr) || fresh(s.chr))
    ensures s.Contents() == old(s.Contents()) + EscapeByte(c)
  {
    var named := NamedEscape(c);
    if named.Some? {
      s.PushL(Some(['\\', named.value]), 2);
    } else if !IsPrintable(c) {
      PushTwo(s, '\\', 'x');
      PushTwo(s, HexDigits[c as int / 16], HexDigits[c as int % 16]);
    } else {
      s.PushC(c);
    }
  }

  /** A scan that read `l` non-NUL bytes and then met `len` or a NUL read `input[..l]`. */
  lemma {:induction false} ScannedStops(input: seq<byte>, len: nat, l: nat)
    requires l <= len <= |input| && NulFree(input[..l]) && (l == len || input[l] == NUL)
    ensures Scanned(input, len) == input[..l]
    decreases l
  {
    if l > 0 {
      assert input[0] == input[..l][0];
      assert input[1..][..l - 1] == input[..l][1..];
      ScannedStops(input[1..], len - 1, l - 1);
      assert input[..l] == [input[0]] + input[1..][..l - 1];
    }
  }

  lemma {:induction false} EscapeAppend(s: seq<byte>, c: byte)
    ensures EscapeSpec(s + [c]) == EscapeSpec(s) + EscapeByte(c)
  {
    if s == [] {
      assert [] + [c] == [c];
    } else {
      assert (s + [c])[1..] == s[1..] + [c];
      EscapeAppend(s[1..], c);
    }
  }

  /** `z3_unescape(input, len)`, for inputs it reads without running past their end. */
  method Unescape(input: seq<byte>, len: nat) returns (s: ZString)
    requires UnescapeSpec(input, len).Some?
    ensures fresh(s) && s.Valid() && s.Contents() == UnescapeSpec(input, len).value
  {
    ghost var whole := UnescapeSpec(input, len);
    s := new ZString.Str(32);
    var p: nat, l: nat := 0, 0;
    assert whole == Cons(s.Contents(), UnescapeSpec(From(input, p), len - l)) by {
      assert From(input, 0) == input;
      assert [] + whole.value == whole.value;
    }
    while l < len && input[p] != NUL
      invariant s.Valid() && s.chr != null && fresh(s) && fresh(s.chr)
      invariant whole.Some? && whole == Cons(s.Contents(), UnescapeSpec(From(input, p), len - l))
      invariant l < len ==> p < |input|
      decreases |input| - p
    {
      p, l := UnescapeStep(s, input, len, p, l, whole);
    }
    assert UnescapeSpec(From(input, p), len - l) == Some([]) by {
      if l < len {
        FromShift(input, p, 0);
      }
      UnescapeStops(From(input, p), len - l);
    }
    assert s.Contents() + [] == s.Contents();
    s.Ensure0();
  }

  /** One pass of the loop body, stated against the whole input: the invariant of `Unescape`. */
  method UnescapeStep(s: ZString, input: seq<byte>, len: nat, p: nat, l: nat, ghost whole: Option<seq<byte>>)
      returns (p': nat, l': nat)
    requires s.Valid() && s.chr != null
    requires l < len && p < |input| && input[p] != NUL
    requires whole.Some? && whole == Cons(s.Contents(), UnescapeSpec(From(input, p), len - l))
    modifies s, s.chr
    ensures s.Valid() && s.chr != null && (s.chr == old(s.chr) || fresh(s.chr))
    ensures whole == Cons(s.Contents(), UnescapeSpec(From(input, p'), len - l'))
    ensures l' < len ==> p' < |input|
    ensures p' > p
  {
    ghost var before := s.Contents();
    UnescapeUnitExists(input, len, p, l, before, whole);
    p', l' := UnescapeUnit(s, input, p, l);
    UnescapeAdvance(input, len, p, l, before, whole, p', l');
  }

  lemma UnescapeUnitExists(input: seq<byte>, len: nat, p: nat, l: nat, before: seq<byte>, whole: Option<seq<byte>>)
    requires l < len && p < |input| && input[p] != NUL
    requires whole.Some? && whole == Cons(before, UnescapeSpec(From(input, p), len - l))
    ensures UnescapeUnitOf(From(input, p)).Some?
  {
    FromShift(input, p, 0);
    ConsSome(before, UnescapeSpec(From(input, p), len - l));
    UnescapeSpecStep(From(input, p), len - l);
  }

  /** The unescape invariant moves past the unit at `p`. */
  lemma UnescapeAdvance(input: seq<byte>, len: nat, p: nat, l: nat, before: seq<byte>, whole: Option<seq<byte>>,
                        p': nat, l': nat)
    requires l < len && p < |input| && input[p] != NUL
    requires whole.Some? && whole == Cons(before, UnescapeSpec(From(input, p), len - l))
    requires UnescapeUnitOf(From(input, p)).Some?
    requires p' == p + UnescapeUnitOf(From(input, p)).value.skip
    requires l' == l + UnescapeUnitOf(From(input, p)).value.cost
    ensures whole == Cons(before + UnescapeUnitOf(From(input, p)).value.out, UnescapeSpec(From(input, p'), len - l'))
    ensures l' < len ==> p' < |input|
  {
    var buf := From(input, p);
    var u := UnescapeUnitOf(buf).value;
    var rest := UnescapeSpec(From(input, p'), len - l');
    assert UnescapeSpec(buf, len - l) == Cons(u.out, rest) by {
      FromShift(input, p, 0);
      UnescapeSpecStep(buf, len - l);
      FromShift(input, p, u.skip);
    }
    ConsAssoc(before, u.out, rest);
    assert rest.Some? by {
      ConsSome(before + u.out, rest);
    }
    if l' < len && p' >= |input| {
      UnescapePastEnd(From(input, p'), len - l');
    }
  }

  /** One unfolding of `UnescapeSpec` at a unit. */
  lemma UnescapeSpecStep(buf: seq<byte>, budget: int)
    requires budget > 0 && |buf| > 0 && buf[0] != NUL
    ensures UnescapeUnitOf(buf).None? ==> UnescapeSpec(buf, budget).None?
    ensures UnescapeUnitOf(buf).Some? ==>
              UnescapeSpec(buf, budget) ==
                Cons(UnescapeUnitOf(buf).value.out,
                     UnescapeSpec(From(buf, UnescapeUnitOf(buf).value.skip), budget - UnescapeUnitOf(buf).value.cost))
  {
  }

  /** One pass of the loop body of `z3_unescape`, from position `p` with counter `l`. */
  method UnescapeUnit(s: ZString, input: seq<byte>, p: nat, l: nat) returns (p': nat, l': nat)
    requires s.Valid() && s.chr != null
    requires p < |input| && UnescapeUnitOf(From(input, p)).Some?
    modifies s, s.chr
    ensures s.Valid() && s.chr != null && (s.chr == old(s.chr) || fresh(s.chr))
    ensures s.Contents() == old(s.Contents()) + UnescapeUnitOf(From(input, p)).value.out
    ensures p' == p + UnescapeUnitOf(From(input, p)).value.skip
    ensures l' == l + UnescapeUnitOf(From(input, p)).value.cost
  {
    FromShift(input, p, 0);
    if input[p] == '\\' {
      p', l' := UnescapeBackslash(s, input, p, l);
    } else {
      s.PushC(input[p]);
      p', l' := p + 1, l + 1;
    }
  }

  /** The `switch` on the byte after a backslash. */
  method UnescapeBackslash(s: ZString, input: seq<byte>, p: nat, l: nat) returns (p': nat, l': nat)
    requires s.Valid() && s.chr != null
    requires p < |input| && input[p] == '\\' && UnescapeUnitOf(From(input, p)).Some?
    modifies s, s.chr
    ensures s.Valid() && s.chr != null && (s.chr == old(s.chr) || fresh(s.chr))
    ensures s.Contents() == old(s.Contents()) + UnescapeUnitOf(From(input, p)).value.out
    ensures p' == p + UnescapeUnitOf(From(input, p)).value.skip
    ensures l' == l + UnescapeUnitOf(From(input, p)).value.cost
  {
    FromShift(input, p, 0);
    FromShift(input, p, 1);
    var c := input[p + 1];
    var letter := UnescapeLetter(c);
    if letter.Some? {
      s.PushC(letter.value);
      p', l' := p + 2, l + 1;
    } else if c == 'x' {
      p', l' := UnescapeHex(s, input, p, l);
    } else {
      PushTwo(s, '\\', c);
      p', l' := p + 2, l + 1;
    }
  }

  /** The `case 'x'` of `z3_unescape`: a hex byte, or `\x` kept before a non-hex byte. */
  method UnescapeHex(s: ZString, input: seq<byte>, p: nat, l: nat) returns (p': nat, l': nat)
    requires s.Valid() && s.chr != null
    requires p + 1 < |input| && input[p] == '\\' && input[p + 1] == 'x'
    requires UnescapeUnitOf(From(input, p)).Some?
    modifies s, s.chr
    ensures s.Valid() && s.chr != null && (s.chr == old(s.chr) || fresh(s.chr))
    ensures s.Contents() == old(s.Contents()) + UnescapeUnitOf(From(input, p)).value.out
    ensures p' == p + UnescapeUnitOf(From(input, p)).value.skip
    ensures l' == l + UnescapeUnitOf(From(input, p)).value.cost
  {
    FromShift(input, p, 0);
    FromShift(input, p, 1);
    FromShift(input, p, 2);
    assert UnescapeLetter('x').None?;
    var h := input[p + 2];
    if !IsXDigit(h) {
      PushKeptHex(s, h);
      p', l' := p + 4, l + 1;
    } else {
      FromShift(input, p, 3);
      s.PushC(HexByte(h, input[p + 3]));
      p', l' := p + 4, l + 2;
    }
  }

  /** Two `z3_pushc` calls. */
  method PushTwo(s: ZString, a: byte, b: byte)
    requires s.Valid() && s.chr != null
    modifies s, s.chr
    ensures s.Valid() && s.chr != null && (s.chr == old(s.chr) || fresh(s.chr))
    ensures s.Contents() == old(s.Contents()) + [a, b]
  {
    s.PushC(a);
    s.PushC(b);
  }

  /** `\x` before a non-hex byte `h` is kept: push `\x`, then `h`. */
  method PushKeptHex(s: ZString, h: byte)
    requires s.Valid() && s.chr != null
    modifies s, s.chr
    ensures s.Valid() && s.chr != null && (s.chr == old(s.chr) || fresh(s.chr))
    ensures s.Contents() == old(s.Contents()) + ['\\', 'x', h]
  {
    s.PushL(Some(['\\', 'x']), 2);
    s.PushC(h);
  }

  lemma FromShift(buf: seq<byte>, p: nat, k: nat)
    requires p < |buf|
    ensures From(From(buf, p), k) == From(buf, p + k)
    ensures p + k < |buf| ==> From(buf, p)[k] == buf[p + k]
    ensures |From(buf, p)| == |buf| - p
  {
  }

  /** The scan ends, reading nothing more, when the counter reaches `len` or at a NUL. */
  lemma UnescapeStops(buf: seq<byte>, budget: int)
    requires budget <= 0 || (|buf| > 0 && buf[0] == NUL)
    ensures UnescapeSpec(buf, budget) == Some([])
  {
  }

  lemma ConsSome(a: seq<byte>, rest: Option<seq<byte>>)
    ensures Cons(a, rest).Some? <==> rest.Some?
  {
  }

  /** Reading beyond the buffer is the only way the scan fails. */
  lemma UnescapePastEnd(buf: seq<byte>, budget: int)
    requires |buf| == 0 && budget > 0
    ensures UnescapeSpec(buf, budget).None?
  {
  }

  lemma ConsAssoc(a: seq<byte>, b: seq<byte>, rest: Option<seq<byte>>)
    ensures Cons(a, Cons(b, rest)) == Cons(a + b, rest)
  {
    if rest.Some? {
      assert a + (b + rest.value) == (a + b) + rest.value;
    }
  }

  // ----- template interpolation -----

  /** The bytes allowed inside `#{...}`. */
  predicate IsPathChar(c: byte)
  {
    IsAlnum(c) || c == '_' || c == '-'
  }

  /** Where the scan for the closing `}` stops: the end, a `}`, or the first byte not allowed in an id. */
  function PathEnd(t: seq<byte>, k: nat): (e: nat)
    requires k <= |t|
    ensures k <= e <= |t|
    ensures forall j :: k <= j < e ==> t[j] != '}' && IsPathChar(t[j])
    ensures e == |t| || t[e] == '}' || !IsPathChar(t[e])
    decreases |t| - k
  {
    if k == |t| || t[k] == '}' || !IsPathChar(t[k]) then k else PathEnd(t, k + 1)
  }

  /**
   * A filler: `Some(text)` when it appended `text` and returned true, `None`
   * when it returned false having appended nothing (a filler that appends
   * and then refuses is not modelled).
   */
  type Filler = seq<byte> -> Option<seq<byte>>

  /**
   * One unit of `z3_interp` at index `i` of the template bytes `t`: what it
   * appends and where the scan goes on.  `\\c` gives `c` (the byte after a
   * final backslash is the terminator); `#{id}` gives the filler's text or,
   * when it refuses, the placeholder itself; an unterminated `#{` is copied up
   * to where the id scan stopped; every other byte is copied.
   */
  function InterpUnit(t: seq<byte>, filler: Filler, i: nat): (r: (seq<byte>, nat))
    requires i < |t|
    ensures r.1 > i
  {
    if t[i] == '\\' then ([At(t, i + 1)], i + 2)
    else if !(i + 1 < |t| && t[i] == '#' && t[i + 1] == '{') then ([t[i]], i + 1)
    else
      var e := PathEnd(t, i + 2);
      if e == |t| || t[e] != '}' then (t[i..e], e)
      else
        var filled := filler(t[i + 2..e]);
        (if filled.Some? then filled.value else t[i..e + 1], e + 1)
  }

  /** `z3_interp` of the template bytes `t` from index `i` on. */
  function InterpFrom(t: seq<byte>, filler: Filler, i: nat): seq<byte>
    decreases |t| - i
  {
    if i >= |t| then []
    else
      var u := InterpUnit(t, filler, i);
      u.0 + InterpFrom(t, filler, u.1)
  }

  function InterpSpec(t: seq<byte>, filler: Filler): seq<byte>
  {
    InterpFrom(t, filler, 0)
  }

  /** Without a backslash and with a filler that refuses, a unit is copied as it stands. */
  lemma InterpUnitRefused(t: seq<byte>, filler: Filler, i: nat)
    requires i < |t| && t[i] != '\\'
    requires forall id :: filler(id).None?
    ensures InterpUnit(t, filler, i).1 <= |t|
    ensures InterpUnit(t, filler, i).0 == t[i..InterpUnit(t, filler, i).1]
  {
  }

  /** No backslash and a filler that always refuses: the template comes back unchanged. */
  lemma {:induction false} InterpRefusedIsIdentity(t: seq<byte>, filler: Filler, i: nat)
    requires i <= |t|
    requires forall j :: i <= j < |t| ==> t[j] != '\\'
    requires forall id :: filler(id).None?
    ensures InterpFrom(t, filler, i) == t[i..]
    decreases |t| - i
  {
    if i < |t| {
      var u := InterpUnit(t, filler, i);
      assert u.1 <= |t| && u.0 == t[i..u.1] by { InterpUnitRefused(t, filler, i); }
      InterpRefusedIsIdentity(t, filler, u.1);
      assert t[i..] == t[i..u.1] + t[u.1..];
    }
  }

  /** A template free of `\` and `#` is copied unchanged, whatever the filler. */
  lemma {:induction false} InterpPlain(t: seq<byte>, filler: Filler, i: nat)
    requires i <= |t|
    requires forall j :: i <= j < |t| ==> t[j] != '\\' && t[j] != '#'
    ensures InterpFrom(t, filler, i) == t[i..]
    decreases |t| - i
  {
    if i < |t| {
      assert InterpUnit(t, filler, i) == ([t[i]], i + 1);
      InterpPlain(t, filler, i + 1);
      assert t[i..] == [t[i]] + t[i + 1..];
    }
  }

  /** A placeholder `#{id}` is replaced by the filler's text, or kept when the filler refuses. */
  lemma InterpPlaceholder(id: seq<byte>, rest: seq<byte>, filler: Filler)
    requires forall j :: 0 <= j < |id| ==> IsPathChar(id[j]) && id[j] != '}'
    ensures InterpSpec("#{" + id + "}" + rest, filler) ==
              (if filler(id).Some? then filler(id).value else "#{" + id + "}") +
              InterpFrom("#{" + id + "}" + rest, filler, |id| + 3)
  {
    var t := "#{" + id + "}" + rest;
    var e := |id| + 2;
    PlaceholderShape(id, rest);
    assert PathEnd(t, 2) == e by {
      PathEndOver(t, 2, e);
    }
    InterpUnitHash(t, filler, 0, e);
    assert InterpSpec(t, filler) == InterpUnit(t, filler, 0).0 + InterpFrom(t, filler, e + 1);
  }

  lemma PlaceholderShape(id: seq<byte>, rest: seq<byte>)
    ensures var t, e := "#{" + id + "}" + rest, |id| + 2;
              |t| > e && t[0] == '#' && t[1] == '{' && t[e] == '}' && t[2..e] == id &&
              t[0..e + 1] == "#{" + id + "}" && (forall j :: 2 <= j < e ==> t[j] == id[j - 2])
  {
    var t, e := "#{" + id + "}" + rest, |id| + 2;
    var p := "#{" + id + "}";
    assert t == p + rest;
    assert t[..e + 1] == p;
  }

  lemma {:induction false} PathEndOver(t: seq<byte>, k: nat, e: nat)
    requires k <= e < |t| && t[e] == '}'
    requires forall j :: k <= j < e ==> t[j] != '}' && IsPathChar(t[j])
    ensures PathEnd(t, k) == e
    decreases e - k
  {
    if k < e { PathEndOver(t, k + 1, e); }
  }

  /** `\c` yields `c`, the backslash dropped. */
  lemma InterpBackslash(c: byte, rest: seq<byte>, filler: Filler)
    ensures InterpSpec(['\\', c] + rest, filler) == [c] + InterpFrom(['\\', c] + rest, filler, 2)
  {
  }

  /** A run of bytes holding neither `\\` nor `#`, which `z3_interp` copies as it stands. */
  predicate Plain(a: seq<byte>)
  {
    forall j :: 0 <= j < |a| ==> a[j] != '\\' && a[j] != '#'
  }

  /** `r` sits in `t` from index `o` to the end. */
  predicate Embeds(t: seq<byte>, o: nat, r: seq<byte>)
  {
    |t| == o + |r| && forall j :: 0 <= j < |r| ==> t[o + j] == r[j]
  }

  lemma SliceShift(t: seq<byte>, o: nat, r: seq<byte>, a: nat, b: nat)
    requires Embeds(t, o, r) && a <= b <= |r|
    ensures t[o + a..o + b] == r[a..b]
  {
    assert forall j :: 0 <= j < b - a ==> t[o + a..o + b][j] == r[a..b][j];
  }

  /** The id scan does not look behind its start, so what precedes `r` only shifts where it stops. */
  lemma {:induction false} PathEndShift(t: seq<byte>, o: nat, r: seq<byte>, k: nat)
    requires Embeds(t, o, r) && k <= |r|
    ensures PathEnd(t, o + k) == o + PathEnd(r, k)
    decreases |r| - k
  {
    if k < |r| {
      assert t[o + k] == r[k];
      if r[k] != '}' && IsPathChar(r[k]) {
        PathEndShift(t, o, r, k + 1);
      }
    }
  }

  lemma InterpUnitShift(t: seq<byte>, o: nat, r: seq<byte>, filler: Filler, k: nat)
    requires Embeds(t, o, r) && k < |r|
    ensures InterpUnit(t, filler, o + k) == (InterpUnit(r, filler, k).0, o + InterpUnit(r, filler, k).1)
  {
    assert t[o + k] == r[k];
    if r[k] == '\\' {
      assert At(t, o + k + 1) == At(r, k + 1);
    } else if k + 1 < |r| && r[k] == '#' && r[k + 1] == '{' {
      assert t[o + k + 1] == r[k + 1];
      PathEndShift(t, o, r, k + 2);
      var e := PathEnd(r, k + 2);
      if e < |r| && r[e] == '}' {
        InterpUnitShiftClosed(t, o, r, filler, k, e);
      } else {
        InterpUnitShiftOpen(t, o, r, filler, k, e);
      }
    } else {
      assert !(o + k + 1 < |t| && t[o + k] == '#' && t[o + k + 1] == '{') by {
        if k + 1 < |r| { assert t[o + k + 1] == r[k + 1]; }
      }
    }
  }

  lemma InterpUnitShiftClosed(t: seq<byte>, o: nat, r: seq<byte>, filler: Filler, k: nat, e: nat)
    requires Embeds(t, o, r) && k + 1 < |r| && r[k] == '#' && r[k + 1] == '{'
    requires e == PathEnd(r, k + 2) && PathEnd(t, o + k + 2) == o + e && e < |r| && r[e] == '}'
    ensures InterpUnit(t, filler, o + k) == (InterpUnit(r, filler, k).0, o + InterpUnit(r, filler, k).1)
  {
    assert t[o + k] == '#' && t[o + k + 1] == '{' && t[o + e] == '}';
    calc {
      InterpUnit(t, filler, o + k);
    == { InterpUnitHash(t, filler, o + k, o + e); }
      (if filler(t[o + k + 2..o + e]).Some? then filler(t[o + k + 2..o + e]).value
       else t[o + k..o + e + 1], o + e + 1);
    == { SliceShift(t, o, r, k + 2, e); SliceShift(t, o, r, k, e + 1); }
      (if filler(r[k + 2..e]).Some? then filler(r[k + 2..e]).value else r[k..e + 1], o + e + 1);
    == { InterpUnitHash(r, filler, k, e); }
      (InterpUnit(r, filler, k).0, o + InterpUnit(r, filler, k).1);
    }
  }

  lemma InterpUnitShiftOpen(t: seq<byte>, o: nat, r: seq<byte>, filler: Filler, k: nat, e: nat)
    requires Embeds(t, o, r) && k + 1 < |r| && r[k] == '#' && r[k + 1] == '{'
    requires e == PathEnd(r, k + 2) && PathEnd(t, o + k + 2) == o + e && (e == |r| || r[e] != '}')
    ensures InterpUnit(t, filler, o + k) == (InterpUnit(r, filler, k).0, o + InterpUnit(r, filler, k).1)
  {
    assert t[o + k] == '#' && t[o + k + 1] == '{';
    assert o + e == |t| || t[o + e] != '}';
    assert t[o + k..o + e] == r[k..e] by { SliceShift(t, o, r, k, e); }
    InterpUnitHash(r, filler, k, e);
    InterpUnitHash(t, filler, o + k, o + e);
  }

  /** `z3_interp` of `t` from inside its tail `r` is `z3_interp` of `r` alone: a unit never looks back. */
  lemma {:induction false} InterpShift(t: seq<byte>, o: nat, r: seq<byte>, filler: Filler, k: nat)
    requires Embeds(t, o, r) && k <= |r|
    ensures InterpFrom(t, filler, o + k) == InterpFrom(r, filler, k)
    decreases |r| - k
  {
    if k < |r| {
      var next := InterpShiftStep(t, o, r, filler, k);
      if next <= |r| {
        InterpShift(t, o, r, filler, next);
      }
    }
  }

  /** One unit read from `r` and from `t` at the matching index appends the same bytes and moves alike. */
  lemma InterpShiftStep(t: seq<byte>, o: nat, r: seq<byte>, filler: Filler, k: nat) returns (next: nat)
    requires Embeds(t, o, r) && k < |r|
    ensures next > k
    ensures InterpFrom(r, filler, k) == InterpUnit(r, filler, k).0 + InterpFrom(r, filler, next)
    ensures InterpFrom(t, filler, o + k) == InterpUnit(r, filler, k).0 + InterpFrom(t, filler, o + next)
  {
    var ur := InterpUnit(r, filler, k);
    next := ur.1;
    assert InterpFrom(r, filler, k) == ur.0 + InterpFrom(r, filler, next) by { InterpFromStep(r, filler, k); }
    var ut := InterpUnit(t, filler, o + k);
    assert ut == (ur.0, o + next) by { InterpUnitShift(t, o, r, filler, k); }
    assert InterpFrom(t, filler, o + k) == ut.0 + InterpFrom(t, filler, ut.1) by { InterpFromStep(t, filler, o + k); }
  }

  lemma InterpFromStep(t: seq<byte>, filler: Filler, i: nat)
    requires i < |t|
    ensures InterpFrom(t, filler, i) == InterpUnit(t, filler, i).0 + InterpFrom(t, filler, InterpUnit(t, filler, i).1)
  {
  }

  lemma InterpPlainStep(t: seq<byte>, filler: Filler, i: nat)
    requires i < |t| && t[i] != '\\' && t[i] != '#'
    ensures InterpFrom(t, filler, i) == [t[i]] + InterpFrom(t, filler, i + 1)
  {
    assert InterpUnit(t, filler, i) == ([t[i]], i + 1);
  }

  lemma {:induction false} InterpPlainUpTo(t: seq<byte>, filler: Filler, i: nat, j: nat)
    requires i <= j <= |t|
    requires forall k :: i <= k < j ==> t[k] != '\\' && t[k] != '#'
    ensures InterpFrom(t, filler, i) == t[i..j] + InterpFrom(t, filler, j)
    decreases j - i
  {
    if i < j {
      calc {
        InterpFrom(t, filler, i);
      == { InterpPlainStep(t, filler, i); }
        [t[i]] + InterpFrom(t, filler, i + 1);
      == { InterpPlainUpTo(t, filler, i + 1, j); }
        [t[i]] + (t[i + 1..j] + InterpFrom(t, filler, j));
      == { assert t[i..j] == [t[i]] + t[i + 1..j]; }
        t[i..j] + InterpFrom(t, filler, j);
      }
    }
  }

  /** A plain prefix is copied and the rest interpolated on its own. */
  lemma InterpPlainPrefix(a: seq<byte>, r: seq<byte>, filler: Filler)
    requires Plain(a)
    ensures InterpSpec(a + r, filler) == a + InterpSpec(r, filler)
  {
    var t := a + r;
    assert forall k :: 0 <= k < |a| ==> t[k] == a[k];
    assert t[0..|a|] == a;
    InterpPlainUpTo(t, filler, 0, |a|);
    assert Embeds(t, |a|, r);
    InterpShift(t, |a|, r, filler, 0);
  }

  /** A leading placeholder is filled (or kept) and the rest interpolated on its own. */
  lemma InterpHolePrefix(id: seq<byte>, r: seq<byte>, filler: Filler)
    requires forall j :: 0 <= j < |id| ==> IsPathChar(id[j]) && id[j] != '}'
    ensures InterpSpec("#{" + id + "}" + r, filler) ==
              (if filler(id).Some? then filler(id).value else "#{" + id + "}") + InterpSpec(r, filler)
  {
    var p := "#{" + id + "}";
    InterpPlaceholder(id, r, filler);
    assert Embeds(p + r, |p|, r);
    InterpShift(p + r, |p|, r, filler, 0);
  }

  /** `z3_interp(tmplt, filler, ctx)`: the result starts as `z3_str(32)`. */
  method Interp(tmplt: ZString, filler: Filler) returns (result: ZString)
    requires tmplt.Valid()
    ensures fresh(result) && result.Valid() && result.Contents() == InterpSpec(tmplt.Contents(), filler)
  {
    ghost var t := tmplt.Contents();
    result := NewResult();
    var i := 0;
    assert result.Contents() + InterpFrom(t, filler, 0) == InterpSpec(t, filler);
    while i < tmplt.len
      invariant result.Valid() && result.chr != null && fresh(result) && fresh(result.chr)
      invariant tmplt.Valid() && t == tmplt.Contents()
      invariant result.Contents() + InterpFrom(t, filler, i) == InterpSpec(t, filler)
      decreases tmplt.len - i
    {
      ghost var before, i0 := result.Contents(), i;
      i := InterpStep(result, tmplt, filler, i);
      InterpFromUnfold(t, filler, i0, before);
    }
    assert result.Contents() + [] == result.Contents();
  }

  /** The `z3_str(32)` that `z3_interp` builds its result in. */
  method NewResult() returns (result: ZString)
    ensures fresh(result) && fresh(result.chr) && result.Valid() && result.chr != null && result.Contents() == []
  {
    result := new ZString.Str(32);
  }

  lemma InterpFromUnfold(t: seq<byte>, filler: Filler, i: nat, before: seq<byte>)
    requires i < |t|
    ensures before + InterpFrom(t, filler, i) ==
              (before + InterpUnit(t, filler, i).0) + InterpFrom(t, filler, InterpUnit(t, filler, i).1)
  {
  }

  /** One pass of the loop body of `z3_interp` at index `i`. */
  method InterpStep(result: ZString, tmplt: ZString, filler: Filler, i: nat) returns (next: nat)
    requires result.Valid() && result.chr != null && tmplt.Valid() && i < tmplt.len
    requires result != tmplt && result.chr != tmplt.chr
    modifies result, result.chr
    ensures result.Valid() && result.chr != null && (result.chr == old(result.chr) || fresh(result.chr))
    ensures result.Contents() == old(result.Contents()) + InterpUnit(tmplt.Contents(), filler, i).0
    ensures next == InterpUnit(tmplt.Contents(), filler, i).1
  {
    ghost var t := tmplt.Contents();
    if tmplt.chr[i] == '\\' {
      result.PushC(tmplt.chr[i + 1]);
      return i + 2;
    }
    if !(i + 1 < tmplt.len && tmplt.chr[i] == '#' && tmplt.chr[i + 1] == '{') {
      result.PushC(tmplt.chr[i]);
      return i + 1;
    }
    next := PushPlaceholder(result, tmplt, filler, i);
  }

  /** The scan for the `}` closing a placeholder whose id starts at `start`. */
  method ScanPath(tmplt: ZString, start: nat) returns (e: nat)
    requires tmplt.Valid() && start <= tmplt.len
    ensures e == PathEnd(tmplt.Contents(), start)
  {
    ghost var t := tmplt.Contents();
    e := start;
    while e < tmplt.len && tmplt.chr[e] != '}'
      invariant start <= e <= tmplt.len && PathEnd(t, start) == PathEnd(t, e)
      decreases tmplt.len - e
    {
      if !IsPathChar(tmplt.chr[e]) {
        break;
      }
      e := e + 1;
    }
  }

  /** The `#{` branch of the loop body of `z3_interp`: scan the id and push its replacement. */
  method PushPlaceholder(result: ZString, tmplt: ZString, filler: Filler, i: nat) returns (next: nat)
    requires result.Valid() && result.chr != null && tmplt.Valid() && i + 1 < tmplt.len
    requires tmplt.chr[i] == '#' && tmplt.chr[i + 1] == '{'
    requires result != tmplt && result.chr != tmplt.chr
    modifies result, result.chr
    ensures result.Valid() && result.chr != null && (result.chr == old(result.chr) || fresh(result.chr))
    ensures result.Contents() == old(result.Contents()) + InterpUnit(tmplt.Contents(), filler, i).0
    ensures next == InterpUnit(tmplt.Contents(), filler, i).1
  {
    ghost var t := tmplt.Contents();
    var start := i + 2;
    var e := ScanPath(tmplt, start);
    ghost var u := InterpUnit(t, filler, i);
    assert u.0 == t[i..e] && u.1 == e && t[i..e] == tmplt.chr[i..e] <== e == tmplt.len || tmplt.chr[e] != '}' by {
      InterpUnitHash(t, filler, i, e);
      ContentsSlice(tmplt, i, e);
    }
    if tmplt.chr[e] != '}' || e >= tmplt.len {
      result.PushL(Some(tmplt.chr[i..e]), e - i);
      return e;
    }
    assert u == (if filler(tmplt.chr[start..e]).Some? then filler(tmplt.chr[start..e]).value else tmplt.chr[i..e + 1], e + 1) by {
      InterpUnitHash(t, filler, i, e);
      ContentsSlice(tmplt, start, e);
      ContentsSlice(tmplt, i, e + 1);
    }
    PushFilled(result, filler, tmplt.chr[start..e], tmplt.chr[i..e + 1]);
    return e + 1;
  }

  /** The bytes of a string between two indices within its content. */
  lemma ContentsSlice(z: ZString, a: nat, b: nat)
    requires z.Valid() && z.chr != null && a <= b <= z.len
    ensures z.Contents()[a..b] == z.chr[a..b]
    ensures b < z.len ==> z.Contents()[b] == z.chr[b]
  {
  }

  /** The unit at a `#{`: what it appends, depending on where the id scan stopped. */
  lemma InterpUnitHash(t: seq<byte>, filler: Filler, i: nat, e: nat)
    requires i + 1 < |t| && t[i] == '#' && t[i + 1] == '{' && e == PathEnd(t, i + 2)
    ensures e == |t| || t[e] != '}' ==> InterpUnit(t, filler, i) == (t[i..e], e)
    ensures e < |t| && t[e] == '}' ==>
              InterpUnit(t, filler, i) ==
                (if filler(t[i + 2..e]).Some? then filler(t[i + 2..e]).value else t[i..e + 1], e + 1)
  {
  }

  /** A closed placeholder: the filler's text for `id`, or the placeholder `whole` itself when it refuses. */
  method PushFilled(result: ZString, filler: Filler, id: seq<byte>, whole: seq<byte>)
    requires result.Valid() && result.chr != null
    modifies result, result.chr
    ensures result.Valid() && result.chr != null && (result.chr == old(result.chr) || fresh(result.chr))
    ensures result.Contents() == old(result.Contents()) + (if filler(id).Some? then filler(id).value else whole)
  {
    var filled := filler(id);
    if filled.Some? {
      result.PushL(filled, |filled.value|);
    } else {
      result.PushL(Some(whole), |whole|);
    }
  }
}

# anvil's configuration core, modelled in Dafny

anvil is a small C build tool. It reads its project file `anvil.yaml` with a hand-written YAML
subset parser, projects the resulting node tree onto configuration records, and splits make-style
dependency lines. This project models that core and the small containers it rests on, and proves
what each part promises:

- **Tokenizer** (`Tokenizers`, tokenizer.dfy). The cursor (`cpos`, `line`, `ccol`) runs over a
  NUL-terminated byte buffer. `next_token` is a pure reference function (`NextTokenF`). The class
  `Tokenizer` implements it with the `goto` turned into a loop, and its methods are proved equal to
  that function. Lemmas give the shape of every token kind, line and column tracking, and what
  `token_value` strips.
- **Tree builder** (`Parser`, parser.dfy; `Yaml`, yaml.dfy). `parse_value`, `parse_map`,
  `parse_seq`, `parse_alias` and `parse_yaml` are reference functions over a parse state. The state
  holds the cursor, the alias table and a node heap. The recursive methods of `Yaml` run on a
  `Tokenizer` and a `NodeHeap` object and are proved to compute those functions. A `Node*` is an
  index into the heap, so alias identity is equality of indices. `free_node` and its reference
  counting, and `map_get_node`, are modelled too.
- **Types** (`YamlTypes`, yaml_types.dfy). `Node`, `Map`, `Sequence`, `Token`, the enums and
  their C values, the token-name table, and `create_node`, `map_add` and `sequence_add` with their
  growth rule.
- **Diagnostics** (`Diagnostics`, diagnostics.dfy). `yaml_error_to_string`, `parser_filler`, the
  message templates, and the report `parser_error` prints: the error line, its neighbours, the caret
  line and the interpolated message.
- **Strings and codecs** (`ZStrings`, zstring.dfy; `Codecs`, codec.dfy). The growable `String` as a
  class over a byte array. `z3_escape`/`z3_unescape` form a round trip, and `z3_interp` does
  `#{id}` substitution.
- **Containers** (`HashMaps`, hashmap.dfy; `Vectors`, vector.dfy). The open-addressing hash map
  with FNV-1a 64, linear probing and slot-order iteration, and the growable vector.
- **Small helpers** (`Toys`, toys.dfy; `Bytes`, bytes.dfy; `Wrappers`, wrappers.dfy).
  `next_power_of2`, `popf`, the C character classes, and `Option`/`Result`.
- **Dependency lines** (`Build`, build.dfy). `parse_dependencies`.
- **Configuration records** (`Config`, config.dfy). The `dset_*` functions as methods of classes
  standing for the C structs, each proved against a function of the node tree.

How C maps onto the model:

- Bytes are `char`s below 256 (`Bytes.byte`).
- `size_t` arithmetic is written out modulo 2^64 where it matters: the FNV hash, the probe wrap,
  and `next_power_of2`.
- A call that ends the program (`parser_error`, `exit`) is a `Failure` result that carries what the
  call was given.
- A read beyond the terminator is its own failure (`Overrun`), or `None` in the reference functions.

Three behaviours of the code worth noting:

- `create_node` gives a new node `rcount = 1` (src/yaml.c:288), not 0.
- `parse_string` keeps the token's bytes without unescaping them (src/yaml.c:410-415).
- `KEY_REDEFINITION` is never raised. `map_add` appends duplicate keys, and `map_get_node` answers
  the first one.

## Model

| member | source | states |
|---|---|---|
| YamlTypes.TokenKindsEnumerated | src/libs/yaml.h:67-86 | The token kinds have the 18 enum values 0..17, one per kind, in declaration order, and the name table has 18 entries. |
| YamlTypes.TokenKindNamed | src/yaml.c:697-716 | Entry `i` of `token_kind_strings` names kind `i` (the kind is recovered from the name) and starts with `TOKEN_`. |
| YamlTypes.TokenKindNamesDistinct | src/yaml.c:697-716 | Different kinds have different names. |
| YamlTypes.ErrorKindOf | src/libs/yaml.h:90-100 | An `int` is an error kind exactly when it lies in 0..8, and then the kind has that enum value. |
| YamlTypes.ErrorKindOfOrdinal | src/libs/yaml.h:90-100 | Every error kind is found again from its enum value. |
| YamlTypes.CreateNode | src/yaml.c:280-323 | A new node holds its payload and is referenced once. |
| YamlTypes.NewMap | src/yaml.c:291-301 | A new map is empty with capacity 8. |
| YamlTypes.NewSequence | src/yaml.c:302-314 | A new sequence is empty with capacity 8. |
| YamlTypes.MapAdd | src/yaml.c:363-378 | `map_add` appends the entry at index `size` and keeps earlier entries. A full map doubles its capacity first, otherwise capacity is kept, and `size <= capacity` holds after. |
| YamlTypes.SequenceAdd | src/yaml.c:380-393 | `sequence_add` appends the item at index `size` with the same growth rule and invariant. |
| YamlTypes.CapacityAfterShape | src/yaml.c:363-393 | After `n` appends the capacity is `8 * 2^j`, and below `2n` once past 8. |
| YamlTypes.GrownCapacityFollows | src/yaml.c:363-393 | One growth step keeps the capacity equal to that of `n` appends. |
| YamlTypes.MapAddCapacity | src/yaml.c:363-378 | A map grown only by `map_add` from a new one has the capacity of its size. |
| YamlTypes.SequenceAddCapacity | src/yaml.c:380-393 | A sequence grown only by `sequence_add` from a new one has the capacity of its size. |
| Tokenizers.Step | src/yaml.c:35-42 | `skip_char` moves exactly one byte. Over `\n` the line goes up and the column back to 1, else the column goes up; a tracking cursor keeps tracking. |
| Tokenizers.SkipSpaces | src/yaml.c:46-50 | Only spaces are passed, one column each; the cursor stops at a non-space. |
| Tokenizers.AfterWhitespace | src/yaml.c:46-63 | After the spaces, a tab is a `TAB_INDENTATION` error at the tab's position with length 1, and is the only error. |
| Tokenizers.SkipNewlines | src/yaml.c:107-113 | A newline run is passed, one line per byte, and the column becomes 1. |
| Tokenizers.SkipComment | src/yaml.c:115-120 | A comment is passed up to, not over, the next newline or the end. |
| Tokenizers.ScanDouble | src/yaml.c:168-191 | The double-quote scan stops on the closing quote. A newline or the end first is an exit, and a backslash just before the terminator makes it read past the buffer. |
| Tokenizers.DoubleStopStep | src/yaml.c:171-175 | A byte that does not end the string moves the stop search on by one byte, or by two after a backslash. |
| Tokenizers.ScanDoubleStops | src/yaml.c:168-191 | The scan ends at the first byte that no backslash takes and that is `"`, a newline or the terminator. On `"` it is that closing quote; otherwise it is an exit, flagged as at the end exactly when the byte is the terminator. |
| Tokenizers.ScanDoubleOverrun | src/yaml.c:171-175 | The scan reads past the buffer exactly when no such stopping byte exists, that is when a final backslash takes the terminator. |
| Tokenizers.ScanSingle | src/yaml.c:193-215 | The single-quote scan stops on the closing quote with no backslash skipping. A newline or the end first is an exit. |
| Tokenizers.ScanSingleStops | src/yaml.c:193-215 | The scan ends at the first `'`, newline or terminator. On `'` it is the closing quote; otherwise it is an exit, flagged as at the end exactly when the byte is the terminator. |
| Tokenizers.SingleStopExists | src/yaml.c:196-199 | Every single-quote scan has a stopping byte, since the buffer ends in its terminator. |
| Tokenizers.ScanNumber | src/yaml.c:219-228 | The number scan passes digits, `.`, `e`, `E`, `-`, `+` and `_` only. |
| Tokenizers.ScanIdent | src/yaml.c:238-245 | The identifier scan passes letters, digits, `_`, `-` and `.` only. |
| Tokenizers.NextTokenF | src/yaml.c:89-278 | Every token lies in the input, and the cursor never goes back. EOF has length 0 at the end. A token that does not move the cursor is EOF or UNKNOWN. The only failures are a tab, an unclosed quote and the overrun. |
| Tokenizers.NextTokenShape | src/yaml.c:89-278 | Each kind has its slice. EOF is empty at the terminator. A punctuation byte is one byte with its kind. A quoted token runs from quote to quote. A number or identifier is maximal. `true`/`false` not before `:` is a boolean. An anchor's or alias's slice starts one byte before its name, on the byte skipped last (the sigil only when the name follows it at once). Only spaces, newlines, sigils and comments lie between the cursor and the token's text. |
| Tokenizers.SkippedTrans | src/yaml.c:92-129 | Layout passed on the way back to the start of `next_token` adds up. |
| Tokenizers.PassLayoutSkips | src/yaml.c:107-129 | The newline, comment and sigil cases pass over layout bytes only. |
| Tokenizers.NextTokenFailure | src/yaml.c:89-278 | When `next_token` stops the program it does so past layout only, at a tab (TAB_INDENTATION there, length 1), at a quote whose string first meets a newline or the terminator, or at a `"` whose string has no stop and is read past the buffer. |
| Tokenizers.NextTokenTracks | src/yaml.c:89-278 | A token carries the line and column where it starts (the name's, for an anchor or alias), and the cursor keeps tracking. |
| Tokenizers.QuotedTokenValue | src/yaml.c:66-83 | `token_value` of a quoted token strips exactly the two quotes. A single-quoted value holds no quote or newline. |
| Tokenizers.LexQuoted | src/yaml.c:168-215 | A quoted token exists exactly when the scan closed. It spans from the opening to the closing quote inclusive, both the same quote byte, and the cursor ends past it; otherwise the scan's failure is passed on. |
| Tokenizers.Tokenizer.Init | src/yaml.c:650-656 | The tokenizer starts at position 0, line 1, column 1, with no aliases. |
| Tokenizers.Tokenizer.PeekToken | src/yaml.c:85-87 | `peek_token` answers the current token and moves nothing. |
| Tokenizers.Tokenizer.SkipChar | src/yaml.c:35-42 | The method moves the cursor as `Step` does. |
| Tokenizers.Tokenizer.SkipWhitespace | src/yaml.c:46-63 | The method computes `AfterWhitespace`. |
| Tokenizers.Tokenizer.NextToken | src/yaml.c:89-278 | The method, with `loop_track` and `alias_tag` carried round the loop, computes `NextTokenF` and stores the token as `cur_token`. |
| Tokenizers.Tokenizer.PassNewlines | src/yaml.c:107-113 | The cursor moves as `SkipNewlines` says. |
| Tokenizers.Tokenizer.PassComment | src/yaml.c:115-120 | The cursor moves as `SkipComment` says. |
| Tokenizers.Tokenizer.ReadDouble | src/yaml.c:172-185 | The loop computes `ScanDouble`, its exit and its overrun included. |
| Tokenizers.Tokenizer.ReadSingle | src/yaml.c:197-209 | The loop computes `ScanSingle`. |
| Tokenizers.Tokenizer.ReadNumber | src/yaml.c:221-228 | The loop computes `ScanNumber`. |
| Tokenizers.Tokenizer.ReadIdent | src/yaml.c:240-245 | The loop computes `ScanIdent`. |
| Tokenizers.Tokenizer.ReadQuoted | src/yaml.c:168-215 | The quote cases give the token and cursor of `LexQuoted`, or its failure. |
| Tokenizers.Tokenizer.ReadNumberToken | src/yaml.c:219-235 | A number token runs from its first byte over the number bytes, with the start's line and column. |
| Tokenizers.Tokenizer.ReadIdentToken | src/yaml.c:238-269 | The identifier case gives the token of `LexIdent`: a boolean, an anchor, an alias or a key. |
| Parser.NextTok | src/yaml.c:89-278 | Reading a token only moves the cursor forward and keeps aliases and nodes. |
| Parser.GrowsTrans | src/yaml.c:450-643 | What parsing may do to a state (cursor forward, aliases appended, nodes appended, payloads kept) composes. |
| Parser.AllocValid | src/yaml.c:280-323 | Placing a complete node keeps the heap valid, and the node is the last one. |
| Parser.AliasName | src/yaml.c:398-399 | The lookup name is the token's slice with its first byte made `*`. |
| Parser.ParseAliasF | src/yaml.c:395-408 | The answer is the node of the first alias with that name, or NULL when none is bound. |
| Parser.ParseValueF | src/yaml.c:571-643 | `parse_value` either fails or grows the state. Its node, if any, is in the heap. A NULL answer that did not move the cursor stopped at the end or an unknown byte. |
| Parser.ScalarValue | src/yaml.c:410-448 | A string keeps its token value unescaped. A number keeps its text, and a boolean is decided by its length; `ScalarMeaning` ties each to the token text. |
| Parser.ParseBoolean | src/yaml.c:441-448 | `parse_boolean` is true exactly for a four-byte token. |
| Parser.ScalarMeaning | src/yaml.c:410-448 | The node of a scalar token holds what its text says: a boolean is true exactly on the text `true`, a quoted string put back between its two quotes is the token's slice, a number is its slice. |
| Parser.ParseValueScalar | src/yaml.c:571-632 | `parse_value` on a scalar token gives a new node holding what that token's text says. |
| Parser.ParseAnchorF | src/yaml.c:575-607 | The value after an anchor is parsed first, then bound to the name. A name already bound to a node is `REDEFINED_ALIAS` on the anchor token. |
| Parser.ParseAliasRefF | src/yaml.c:609-622 | An alias gives its bound node with one more reference. An unbound name is `UNDEFINED_ALIAS`. |
| Parser.ParseMapF | src/yaml.c:506-569 | The map node is placed after its entries, and every entry refers to an earlier node. |
| Parser.MapCommaF | src/yaml.c:510-525 | After a comma the next token is read, and a second comma is `UNEXPECTED_TOKEN` on the first, where a key was expected. |
| Parser.MapKeyF | src/yaml.c:531-553 | A key needs `:` and a value. A NULL value ends the map; otherwise the entry is appended under the key's text. |
| Parser.ParseSeqF | src/yaml.c:450-504 | The sequence node is placed after its items, in source order. |
| Parser.MapKeyEntry | src/yaml.c:528-556 | After a key, the next token is its colon and the value is parsed after it. A value that is not NULL becomes the map's next entry, under the key's text and with its node as parsed; a NULL value ends the map with nothing added. |
| Parser.SeqItemEntry | src/yaml.c:456-463 | A value that is not NULL becomes the sequence's next item, with its node as parsed. |
| Parser.MapScalarEntry | src/yaml.c:528-556 | In `key: scalar`, the map's next entry is under the key's text, and its node holds what the scalar's text says. |
| Parser.SeqScalarItem | src/yaml.c:456-463 | A scalar item becomes the sequence's next item, and its node holds what the scalar's text says. |
| Parser.KeyThenNumber | src/yaml.c:528-545 | For the input `a 1`, `parse_yaml` stops with UNEXPECTED_TOKEN at the `1` (position 2, length 1), a colon expected and a number found. |
| Parser.SeqNullF | src/yaml.c:466-500 | Without a value: a comma continues unless one came just before, and `]` or the end closes. Anything else is `UNEXPECTED_TOKEN`. |
| Parser.ParseYamlF | src/yaml.c:650-680 | `parse_yaml` reads the root as a map body and checks that the input ended. |
| Parser.ParseYamlEndsAtNul | src/yaml.c:658-670 | `parse_yaml` succeeds exactly when the root map ends at the terminator. Otherwise it reports `UNEXPECTED_TOKEN` where a key was expected. |
| Parser.FirstBindingWins | src/yaml.c:400-404 | Appending to the alias table never changes what an already bound name resolves to. |
| Parser.AnchorBinds | src/yaml.c:575-607 | `&name value` with a fresh name binds it to the value's node for every later state. |
| Parser.AnchorOnNullRebinds | src/yaml.c:581-591 | A name bound to NULL passes the redefinition check and may be bound again; it still resolves to NULL. |
| Parser.AliasIdentity | src/yaml.c:609-614 | `*name` gives the very node bound to the name with `rcount` one higher, and changes nothing else. |
| Parser.UndefinedAliasError | src/yaml.c:615-621 | `*name` with no node bound is `UNDEFINED_ALIAS` on the alias token, naming it. |
| Parser.RedefinedAliasError | src/yaml.c:581-590 | `&name` with a name already bound to a node is `REDEFINED_ALIAS`, raised after the value is read. |
| Parser.KeyWithoutColon | src/yaml.c:533-545 | A key followed by anything but `:` is `UNEXPECTED_TOKEN` on that token, expecting `TOKEN_COLON`. |
| Parser.MapDoubleComma | src/yaml.c:512-522 | Two commas in a row in a map are `UNEXPECTED_TOKEN` on the first, expecting a key. |
| Parser.SeqDoubleComma | src/yaml.c:468-481 | Two commas in a row in a sequence are `UNEXPECTED_TOKEN` on the second, expecting a value. |
| Parser.SeqCommaAfterNull | src/yaml.c:468-481 | A comma right after a comma that stood for a missing item is `UNEXPECTED_TOKEN`. |
| Yaml.NodeHeap.Alloc | src/yaml.c:280-323 | A node is placed at a new address with `rcount` 1, and the rest of the heap is kept. |
| Yaml.NodeHeap.Retain | src/yaml.c:612 | Only the node's `rcount` goes up by one. |
| Yaml.ParseAlias | src/yaml.c:395-408 | The scan of the alias table computes `ParseAliasF`. |
| Yaml.ParseValue | src/yaml.c:571-643 | The method on a tokenizer and heap computes `ParseValueF`. |
| Yaml.ParseAnchor | src/yaml.c:575-607 | The method computes the anchor case `ParseAnchorF`. |
| Yaml.ParseAliasRef | src/yaml.c:609-622 | The method computes the alias case `ParseAliasRefF`. |
| Yaml.ParseNested | src/yaml.c:634-641 | The method computes the `{`, `[` and default cases. |
| Yaml.MapRoundHead | src/yaml.c:510-525 | The method computes the comma check at the start of a round of `parse_map`. |
| Yaml.MapRoundRest | src/yaml.c:527-565 | The method computes the rest of the round: end, entry or error. |
| Yaml.KeyValue | src/yaml.c:531-547 | The method computes the colon check and the value after a key. |
| Yaml.ParseMap | src/yaml.c:506-569 | The loop of `parse_map` computes `ParseMapF`. |
| Yaml.SeqNull | src/yaml.c:466-500 | The method computes `SeqNullF`, with `loop_c` counting commas. |
| Yaml.ParseSeq | src/yaml.c:450-504 | The loop of `parse_seq` computes `ParseSeqF`. |
| Yaml.ParseYaml | src/yaml.c:650-680 | From a fresh tokenizer and heap, `parse_yaml` computes `ParseYamlF`. |
| Yaml.MapLookup | src/yaml.c:688-694 | The answer is the value of an entry with that key, none before it has that key, and NULL means no entry has it. |
| Yaml.MapGetNodeF | src/yaml.c:682-695 | A NULL or non-map node answers NULL. |
| Yaml.MapGetNode | src/yaml.c:682-695 | The kind check and the scan compute `MapGetNodeF`. |
| Yaml.MapGetNodeFirst | src/yaml.c:682-695 | A map answers the value of its first entry with the key, and NULL exactly when no entry has that key. |
| Yaml.Release | src/yaml.c:325-361 | `free_node` releases only nodes at or below the one freed, and keeps everything placed after it. |
| Yaml.FreeNode | src/yaml.c:325-361 | The recursive method computes `Release`; NULL changes nothing. |
| Yaml.RetainRelease | src/yaml.c:325-330 | Adding a reference and then freeing it leaves the heap as it was. |
| Yaml.ReleaseShared | src/yaml.c:325-330 | Freeing a node with `rcount > 1` only decrements it and releases nothing. |
| Yaml.ReleaseUnique | src/yaml.c:325-361 | Freeing a node with `rcount <= 1` releases it and keeps later nodes. |
| Diagnostics.ErrorToString | src/paerr.c:12-35 | The name is `UNKNOWN_ERROR` exactly for an int that is no error kind; each kind gets its own name. |
| Diagnostics.ErrorNamesDistinct | src/paerr.c:12-35 | Two kinds never share a name. |
| Diagnostics.ParserFiller | src/paerr.c:37-70 | The method appends exactly `FillText`. `TAB_INDENTATION` gives false; `UNEXPECTED_TOKEN` compares the first `min(len, 3)` bytes of the id with `exp`, so the empty id, `e`, `ex` and every id starting with `exp` give `exp`, and the others `got`; `MISSING_COMMA` gives nothing; `UNCLOSED_QUOTE` takes the default text; the others give `got`. |
| Diagnostics.MessageWording | src/paerr.c:74-84 | Interpolating each kind's template with `parser_filler` gives its completed wording, and no template holds a NUL. |
| Diagnostics.MessageUnchanged | src/paerr.c:74-84 | A template with no placeholder is its own message and holds no NUL. |
| Diagnostics.LineStart | src/paerr.c:86-90 | The greatest index `<= pos` that is 0 or follows a newline. |
| Diagnostics.LineEnd | src/paerr.c:92-96 | The first index `>= pos` holding a newline or the terminator. |
| Diagnostics.LineOfPosition | src/paerr.c:86-96 | For any whole line and any position in it, the two scans find exactly that line. |
| Diagnostics.Clamp | src/paerr.c:99-103 | A line length is cut below the 256-byte buffer, and kept when it fits. |
| Diagnostics.CurrentLineShape | src/paerr.c:98-105 | The error line is the line holding the position, cut to at most 255 bytes. |
| Diagnostics.PreviousLineShape | src/paerr.c:107-117 | There is no previous line on the first line. Otherwise it is the line ending just before `line_start`, without its newline, cut to the buffer. |
| Diagnostics.NextLineShape | src/paerr.c:119-130 | There is no next line on the last line. Otherwise it is the line starting after `line_end`, cut to the buffer. |
| Diagnostics.ExcerptCarets | src/paerr.c:132-144 | The caret line is `pos - line_start` spaces, then `len` carets, then a newline. |
| Diagnostics.ExcerptMessage | src/paerr.c:134-147 | The report names the kind and carries the template of `error.kind` interpolated with the filler. |
| Diagnostics.FindLineStart | src/paerr.c:86-90 | The loop computes `LineStart`. |
| Diagnostics.FindLineEnd | src/paerr.c:92-96 | The loop computes `LineEnd`. |
| Diagnostics.CopyLine | src/paerr.c:98-105 | A line copied into a buffer is its first `Clamp(n)` bytes. |
| Diagnostics.ReadPrevious | src/paerr.c:107-117 | The guarded copy gives `PreviousLine`. |
| Diagnostics.ReadNext | src/paerr.c:119-130 | The guarded copy gives `NextLine`. |
| Diagnostics.Carets | src/paerr.c:140-144 | The buffer computes the caret line. |
| Diagnostics.ReadMessage | src/paerr.c:146-147 | `z3_strcpy` of the template followed by `z3_interp` computes the message. |
| Diagnostics.ParserError | src/paerr.c:72-159 | The method computes the guarded report `ExcerptOf` and the bytes `Printed` lays out from it with the tokenizer's line. |
| Diagnostics.DecimalValue | src/paerr.c:136-138 | The `%zu` digits of a line number are decimal digits that spell the number back. |
| Diagnostics.DecimalShort | src/paerr.c:136-138 | A line number below 1000 takes at most three digits. |
| Diagnostics.GutterAligned | src/paerr.c:136-152 | A `%3zu \|` gutter is padding, the digits and ` \|`; below line 1000 it is as wide as the `    \|` before the carets, so each caret stands under its byte. |
| Diagnostics.PrintedFrame | src/paerr.c:134-153 | The printout opens with `YamlError::` and the kind's name, then the previous line when there is one, then the error line behind the gutter of the tokenizer's line, and it ends with a blank line and the message. |
| Diagnostics.NeighbourLines | src/paerr.c:136-152 | The neighbours are numbered `line - 1` and `line + 1` as `size_t`: one less and one more, wrapping only at 0 and at 2^64 - 1. |
| Diagnostics.AsWrittenFirstLine | src/paerr.c:108-111 | As written, an error on the first line reads before the input. |
| Diagnostics.AsWrittenLastLine | src/paerr.c:120-124 | As written, an error on the last line reads past the terminator. |
| Diagnostics.AsWrittenLongPrevious | src/paerr.c:112-117 | As written, a previous line of 256 bytes or more overflows `prev_buffer`. |
| Diagnostics.AsWrittenOneLine | src/paerr.c:107-130 | For the one-line input `a 1` and its UNEXPECTED_TOKEN at the `1` (the error `Parser.KeyThenNumber` derives), both neighbour reads leave the buffer; the guarded report still shows the line. |
| Diagnostics.AsWrittenAgrees | src/paerr.c:86-147 | Wherever the code as written stays inside its buffers, it computes the guarded report. |
| ZStrings.Grow | src/libs/z3_string.h:97-100 | The doubling loop reaches a capacity that holds `need` and is below `2 * need` unless unchanged. |
| ZStrings.GrowIsDoubling | src/libs/z3_string.h:97-100 | That capacity is the old one times a power of two. |
| ZStrings.ZString.Str | src/libs/z3_string.h:135-144 | `z3_str(min)` is empty and NUL-terminated with the capacity `next_power_of2(min)` computes as written. It holds `min`, and is the least power of two at least `min` whenever `min` is at most 2^32. |
| ZStrings.ZString.StrCpy | src/libs/z3_string.h:146-159 | `z3_strcpy(s)` holds `s` with `len = strlen(s)`. Its capacity is `len + 1` when that is a power of two, else what `next_power_of2` computes as written; that is the least power of two above `len` whenever `len + 1` is a power of two or at most 2^32. |
| ZStrings.ZString.StrDup | src/libs/z3_string.h:161-175 | `z3_strdup` copies `len`, `max` and the bytes into a new buffer; a NULL string gives NULL/0/0. |
| ZStrings.ZString.Reserve | src/libs/z3_string.h:94-108 | Content and `len` are kept, and the capacity is doubled until it holds `len + additional + 1`. A NULL string is left alone. |
| ZStrings.ZString.Ensure0 | src/libs/z3_string.h:110-115 | The content is kept and stays NUL-terminated. |
| ZStrings.ZString.PushC | src/libs/z3_string.h:117-124 | Exactly one byte is appended, `len` goes up by one, and the NUL follows; a NULL string is left alone. |
| ZStrings.ZString.PushL | src/libs/z3_string.h:126-133 | Exactly the first `l` bytes are appended in order. A NULL string or source, or `l == 0`, changes nothing. |
| ZStrings.ZString.Drops | src/libs/z3_string.h:177-184 | The string becomes NULL/0/0, and a second call changes nothing. |
| ZStrings.CopyInto | src/libs/z3_string.h:130 | The `memcpy` writes the bytes at the offset and keeps what precedes them. |
| Codecs.Scanned | src/libs/z3_string.h:248 | The loop reads a NUL-free prefix of at most `len` bytes, stopping early only at a NUL. |
| Codecs.EscapePrintable | src/libs/z3_string.h:242-301 | Everything `z3_escape` writes is printable ASCII. |
| Codecs.EscapeByteCases | src/libs/z3_string.h:250-295 | Printable bytes other than `\`, `"` and `'` are copied. Named controls and the quotes become a backslash and a letter. Other bytes become `\x` and two hex digits encoding the byte. |
| Codecs.HexByteOfDigits | src/libs/z3_string.h:288-292 | The two hex digits written for a byte decode back to the byte. |
| Codecs.UnescapeEscape | src/libs/z3_string.h:303-390 | Unescaping the NUL-terminated escape of a NUL-free `s`, with any length at least the escape's, gives back `s`. |
| Codecs.EscapeRoundTrip | src/libs/z3_string.h:242-390 | Round trip: `z3_unescape(z3_escape(s))` with the escape's own length is `s`. |
| Codecs.UnescapeUnknown | src/libs/z3_string.h:312-381 | An unrecognised escape keeps the backslash and the byte after it. |
| Codecs.UnescapeStops | src/libs/z3_string.h:308 | The scan ends, reading nothing, at the length bound or at a NUL. |
| Codecs.UnescapePastEnd | src/libs/z3_string.h:308-387 | Running past the buffer is the only way the unescape scan fails. |
| Codecs.Escape | src/libs/z3_string.h:242-301 | The method's result holds `EscapeSpec` of the bytes scanned. |
| Codecs.Unescape | src/libs/z3_string.h:303-390 | On inputs it reads within bounds, the method's result holds `UnescapeSpec`. |
| Codecs.UnescapeHex | src/libs/z3_string.h:344-373 | `\xHH` appends one byte. `\x` before a non-hex byte is kept, and the counter moves by the unit's cost. |
| Codecs.PathEnd | src/libs/z3_string.h:205-214 | The id scan passes only id bytes and stops at the end, a `}` or a byte not allowed in an id. |
| Codecs.ScanPath | src/libs/z3_string.h:209-214 | The scan loop computes `PathEnd`. |
| Codecs.PushFilled | src/libs/z3_string.h:228-233 | The filler's text is appended when it answers; otherwise the whole placeholder is. |
| Codecs.InterpBackslash | src/libs/z3_string.h:194-197 | `\c` yields `c`, and the backslash is dropped. |
| Codecs.InterpPlaceholder | src/libs/z3_string.h:228-236 | `#{id}` becomes the filler's text, or stays verbatim when the filler returns false. |
| Codecs.InterpUnitHash | src/libs/z3_string.h:205-236 | At `#{`, an unterminated placeholder is copied literally up to where the scan stopped. A closed one is filled or kept. |
| Codecs.InterpPlain | src/libs/z3_string.h:199-203 | A template without `\` or `#` is copied unchanged, whatever the filler. |
| Codecs.InterpRefusedIsIdentity | src/libs/z3_string.h:186-240 | Without backslashes, and with a filler that always refuses, the template comes back unchanged. |
| Codecs.InterpShift | src/libs/z3_string.h:193-237 | Interpolating from inside a template equals interpolating that tail alone: no unit looks back. |
| Codecs.InterpPlainPrefix | src/libs/z3_string.h:193-237 | A plain prefix is copied, and the rest is interpolated on its own. |
| Codecs.InterpHolePrefix | src/libs/z3_string.h:193-237 | A leading placeholder is filled or kept, and the rest is interpolated on its own. |
| Codecs.Interp | src/libs/z3_string.h:186-240 | The method's result, grown from `z3_str(32)`, holds `InterpSpec` of the template. |
| HashMaps.XorIn | src/libs/z3_hashmap.h:89 | `hash ^= c` changes only the low byte of the 64-bit hash. |
| HashMaps.Step | src/libs/z3_hashmap.h:89-90 | One round is XOR then multiplication by 1099511628211, modulo 2^64. |
| HashMaps.Hash | src/libs/z3_hashmap.h:85-93 | FNV-1a 64 from 14695981039346656037 stays below 2^64. |
| HashMaps.HashStr | src/libs/z3_hashmap.h:85-93 | The loop computes `Hash`. |
| HashMaps.HashVectors | src/libs/z3_hashmap.h:85-93 | The empty key and `"a"` hash to FNV-1a 64's published values. |
| HashMaps.Probe | src/libs/z3_hashmap.h:95-97 | A probe is a slot index, computed with the 64-bit wrap of `hash + i`. |
| HashMaps.ProbeRotates | src/libs/z3_hashmap.h:95-97 | With 32 slots the wrap is invisible: probing rotates from `hash mod 32`. |
| HashMaps.ProbeVisitsEverySlot | src/libs/z3_hashmap.h:95-97 | Probes 0..31 visit every slot exactly once. |
| HashMaps.EmptyTableIsEmpty | src/libs/z3_hashmap.h:99-105 | `z3_hashmap_create`'s slots hold no key, count zero, and keep the invariant. |
| HashMaps.PutIndex | src/libs/z3_hashmap.h:110-114 | `put` writes the first probed slot that is unused or holds the key. |
| HashMaps.PutKeepsWf | src/libs/z3_hashmap.h:107-126 | `put` keeps the table invariant: stored keys are used, reachable and distinct. It counts a new key once. |
| HashMaps.PutCounts | src/libs/z3_hashmap.h:114-115 | A stored key is replaced in place and the count stays; a new key that finds room adds one. |
| HashMaps.PutFindsRoom | src/libs/z3_hashmap.h:110-125 | A table with an unused slot always has room for `put`. |
| HashMaps.PutThenGet | src/libs/z3_hashmap.h:107-140 | `get(k)` right after `put(k, v)` is `v` whenever `put` found a slot. |
| HashMaps.PutThenGetNotFull | src/libs/z3_hashmap.h:107-140 | On a table that is not full, `get(k)` after `put(k, v)` is `v`. |
| HashMaps.PutKeepsOthers | src/libs/z3_hashmap.h:107-140 | `put(k, v)` keeps every other key's value. |
| HashMaps.PutAllLookup | src/libs/z3_hashmap.h:99-140 | Up to 32 puts into a new table all find room. Each key then maps to the value of its last pair, and other keys to NULL. |
| HashMaps.LookupIsStoredValue | src/libs/z3_hashmap.h:128-140 | `get(k)` is non-NULL exactly when `k` is stored, and is then its stored value. |
| HashMaps.KeysCount | src/libs/z3_hashmap.h:115 | The count equals the number of stored keys. |
| HashMaps.RemoveSpec | src/libs/z3_hashmap.h:142-158 | The corrected `remove` leaves the slots' length unchanged. |
| HashMaps.RemoveClearsKey | src/libs/z3_hashmap.h:142-158 | After `remove(k)`, `k` is stored nowhere. |
| HashMaps.RemoveKeepsWf | src/libs/z3_hashmap.h:142-158 | `remove` with a tombstone keeps the invariant and counts down exactly when it removed a key. |
| HashMaps.RemoveThenGet | src/libs/z3_hashmap.h:142-158 | `get(k)` after `remove(k)` is NULL. |
| HashMaps.RemoveKeepsOthers | src/libs/z3_hashmap.h:142-158 | `remove(k)` keeps every other key's value. |
| HashMaps.RemoveAsWrittenLosesKey | src/libs/z3_hashmap.h:151-153 | Two keys share a home slot, and the source's `remove` of the first makes `get` of the second return NULL. |
| HashMaps.CollidingKeys | src/libs/z3_hashmap.h:85-97 | `"a"` and `"A"` share home slot 12, so the loss happens with them. |
| HashMaps.StoredFromExact | src/libs/z3_hashmap.h:175-185 | The listing of slots holding a key is strictly ascending and complete. |
| HashMaps.HashMap.Create | src/libs/z3_hashmap.h:99-105 | `z3_hashmap_create` gives capacity 32, count 0 and all slots unused. |
| HashMaps.HashMap.Put | src/libs/z3_hashmap.h:107-126 | A NULL key or value changes nothing. Otherwise the slots become `PutSpec`'s and `count` grows for a new key. A full table drops the insert. |
| HashMaps.HashMap.Get | src/libs/z3_hashmap.h:128-140 | The scan stops at the key or the first unused slot: NULL for a NULL key, else `Lookup`. |
| HashMaps.HashMap.Remove | src/libs/z3_hashmap.h:142-158 | With the slot kept as a tombstone, the slots become `RemoveSpec`'s and `count` drops when a key was removed. |
| HashMaps.HashMap.Has | src/libs/z3_hashmap.h:160-162 | `has(k)` holds exactly when `k` is stored. |
| HashMaps.HashMap.Size | src/libs/z3_hashmap.h:164-166 | `size` is the number of stored keys. |
| HashMaps.MapIterator.Init | src/libs/z3_hashmap.h:168-173 | The iterator starts at index 0 with no key or value. |
| HashMaps.MapIterator.Next | src/libs/z3_hashmap.h:175-185 | `iter_next` reports the next slot holding a key and moves past it. At the end it reports false with the index at the capacity. |
| HashMaps.VisitAll | src/libs/z3_hashmap.h:168-185 | Draining an iterator visits every slot with a key exactly once, in ascending index order. |
| Vectors.Vector.Init | src/libs/z3_vector.h:154-163 | `z3_vec`/`z3_vec_heap` start with `len = 0`, `max = 0`, `val = NULL` and the given element size. |
| Vectors.Vector.Get | src/libs/z3_vector.h:49 | `z3_get(vec, i)` reads element `i`. |
| Vectors.Grown | src/libs/z3_vector.h:76-77 | A full vector grows to hold one more, and a vector with room keeps its capacity. |
| Vectors.Vector.Push | src/libs/z3_vector.h:74-87 | The item is stored at `len`, earlier elements are kept, and `len <= max` holds. A full buffer goes to `max` 32 if it was 0, else doubles. |
| Vectors.CapacityForShape | src/libs/z3_vector.h:74-87 | After `n` pushes the capacity is `32 * 2^j`, and below `2n` once past 32. |
| Vectors.GrownFollowsCapacity | src/libs/z3_vector.h:76-77 | One push keeps the capacity equal to that of `n + 1` pushes. |
| Vectors.PushAll | src/libs/z3_vector.h:74-87 | Pushing `n` items onto a new vector stores them in order with capacity `CapacityFor(n)`. |
| Vectors.Vector.Drop | src/libs/z3_vector.h:89-96 | With a buffer every field becomes zero and `val` NULL; without one nothing changes. |
| Vectors.Vector.Drain | src/libs/z3_vector.h:106-113 | `drop_fn` sees each element once, in index order, before the drop. |
| Toys.NextPowerOf2Exact | src/libs/z3_toys.h:71-79 | For `1 <= n <= 2^63`, `next_power_of2(n)` is `2^ceil(log2 n)`. |
| Toys.NextPowerOf2IsLeast | src/libs/z3_toys.h:64-79 | The result is a power of two, at least `n` and below `2n`, and no power of two at least `n` is smaller. |
| Toys.NextPowerOf2OfPower | src/libs/z3_toys.h:71-79 | A power of two is returned unchanged. |
| Toys.Pow2IsPowerOfTwo | src/libs/z3_string.h:149 | Every power of two passes the bit test `(x & (x - 1)) == 0`. |
| Toys.PowerOfTwoIsPow2 | src/libs/z3_string.h:149 | Only powers of two pass it. |
| Toys.AsWrittenAgreesUpTo32 | src/libs/z3_toys.h:71-79 | For `1 <= n <= 2^32` the source's five shifts equal the corrected definition. |
| Toys.AsWrittenWrongAbove32 | src/libs/z3_toys.h:71-79 | For `n = 2^k + 1` with `32 <= k < 63`, the source's result is not a power of two, while the corrected one is. |
| Toys.AsWrittenOddAbove32 | src/libs/z3_toys.h:71-79 | There the source returns an odd number above 1. |
| Toys.ArgCursor.Popf | src/libs/z3_toys.h:59-62 | With `c > 0` it yields the old `*v`, decrements `c` and advances `v`; with `c <= 0` it is the exit. |
| Build.ColonFrom | src/build.c:47 | The first `:` at or after `i`, or the end. |
| Build.RunEndIsRun | src/build.c:60 | A word's run holds no whitespace and ends at whitespace or the end. |
| Build.DependenciesAfterColon | src/build.c:47-51 | Only the text after the first colon contributes. |
| Build.WordIsMaximalRun | src/build.c:53-69 | Every entry is a non-empty, maximal run of non-whitespace bytes. |
| Build.ConcatWords | src/build.c:53-69 | The words, joined, are the text with its whitespace removed. |
| Build.DependenciesConcat | src/build.c:47-69 | The entries, joined, are the text after the first colon without its whitespace. |
| Build.PushWords | src/build.c:53-69 | The loop pushes one fresh string per word, in order, after what `deps` held. |
| Build.SkipSpaces | src/build.c:56-57 | The whitespace loop stops at a non-space or the end, and the words from there are the words from before. |
| Build.ScanWord | src/build.c:59-60 | The word loop stops at the end of the run. |
| Build.ParseDependencies | src/build.c:45-70 | A fresh string is appended per dependency name, in order, and earlier entries are kept. Without a colon `deps` is unchanged. |
| Config.HeapValidIsClosed | src/yaml.c:450-569 | A heap the parser built refers only to its own nodes. |
| Config.Child | src/yaml.c:682-695 | `map_get_node` in a closed heap answers NULL or a node of the heap. |
| Config.FieldFirstMatch | src/config.c:178-188 | A string field is the string of the first entry with the key, NULL when that entry is no string, and NULL without such an entry. |
| Config.FieldOfNonMap | src/config.c:127-131 | A NULL or non-map node sets no string field. |
| Config.StringsOrNullAt | src/config.c:24-27 | Entry `j` is item `j`'s string, or NULL. |
| Config.StringsOnlyMembers | src/config.c:78-83 | The flags are exactly the string items. |
| Config.StringsOnlyAllStrings | src/config.c:78-83 | Without non-string items the flags are all the items' strings, in order. |
| Config.ReadStrings | src/config.c:22-27 | The loop computes the item-by-item list. |
| Config.ReadFlags | src/config.c:77-83 | A new vector receives the string items in order. |
| Config.ArgumentCommands | src/config.c:20-31 | `commands` is set exactly for a sequence. `commands_count` is its size and command `j` is item `j`'s string or NULL; otherwise null and 0. |
| Config.ArgumentConfig.Dset | src/config.c:11-32 | NULL or a non-map leaves the record; a map sets every field as `ArgumentOf` says. |
| Config.DependencyOf | src/config.c:34-48 | A NULL or non-map node leaves the record as it was. |
| Config.DsetDependency | src/config.c:167 | Only slot `i` of the array changes, to `DependencyOf` its old contents. |
| Config.WorkspaceConfig.Dset | src/config.c:50-66 | NULL or a non-map leaves the record; a map sets `libs` and `target`. |
| Config.TargetList | src/config.c:99-121 | A target record's `target` is set exactly when its key holds a sequence, with the count and each item's string or NULL. Otherwise it is NULL with count 0. A non-map item gives a record of NULLs. |
| Config.TargetsFromAt | src/config.c:98-123 | Record `j` is built from item `j`. |
| Config.TargetsCount | src/config.c:89-124 | `count` is the length, and the array is NULL exactly for an empty sequence. Otherwise `target[i]` is built from item `i`. |
| Config.ReadTarget | src/config.c:99-122 | One loop body builds item `i`'s record. |
| Config.BuildTarget.Dset | src/config.c:89-124 | NULL or a non-sequence leaves the record; a sequence sets both fields. |
| Config.MacroPairsMembers | src/config.c:134-144 | A macro `(k, v)` is put exactly when an entry under `k` holds the string `v`. |
| Config.ArgumentPairsMembers | src/config.c:147-159 | A record is put under `k` exactly for the map-valued entries under `k`, and is that map's record. |
| Config.ProfilePairsMembers | src/config.c:68-87 | Flags are put under `k` exactly for the sequence-valued entries under `k`, and are that sequence's string items. Other entries are ignored. |
| Config.MacrosTable | src/config.c:134-144 | With at most 32 entries, `get(macros, k)` is the string of the last string entry under `k`. |
| Config.ArgumentsTable | src/config.c:147-159 | With at most 32 entries, `get(arguments, k)` is the record of the last map entry under `k`. |
| Config.ProfilesTable | src/config.c:68-87 | With at most 32 entries, `get(profiles, k)` is the flags of the last sequence under `k`. |
| Config.ReadMacros | src/config.c:136-143 | A new table receives a `put` per string entry, in order. |
| Config.ReadArgument | src/config.c:154-155 | A new record is filled by `dset_argument_config`. |
| Config.ReadArguments | src/config.c:149-158 | A new table receives a filled record per map entry, in order. |
| Config.DsetProfile | src/config.c:68-87 | NULL or a non-map leaves the table. Otherwise one new flag vector is put per sequence entry, in order. |
| Config.DepsFromAt | src/config.c:166-168 | Record `j` is item `j`'s fields when it is a map, else the record untouched. |
| Config.BuildFields | src/config.c:126-173 | Each table is set exactly when its key holds a map, and `deps` exactly for a sequence, with `deps_count` its length or 0. With the fix, a non-map dependency item gives NULLs. |
| Config.BuildAsWrittenKeepsGarbage | src/config.c:134-168 | As written, an absent `macros` or `arguments` map leaves the field as the struct held it. A non-map dependency item is left uninitialised. |
| Config.BuildAsWrittenExample | src/config.c:134-144 | For the build node `{compiler: "gcc"}` as written, `macros` is whatever was in memory; the fix gives NULL. |
| Config.ReadDeps | src/config.c:164-168 | The loop fills the array item by item. It starts from a zeroed array, which is the fix of the src/config.c:164-168 Findings row; the source `malloc`s it without zeroing. |
| Config.BuildConfig.Dset | src/config.c:126-173 | Every field is set as `BuildOf` says, and both tables are new and keep the hash map invariant. |
| Config.ReadMacrosField | src/config.c:134-144 | A new valid table is made exactly when `BuildOf` has macros, and its slots are those. |
| Config.ReadArgumentsField | src/config.c:147-159 | A new valid table is made exactly when `BuildOf` has arguments, and its slots are those. |
| Config.ReadDepsField | src/config.c:162-172 | The records and their count are those of `BuildOf`. |
| Config.AnvilFields | src/config.c:190-224 | Each nested record or table is set exactly when its key holds the right kind. With at most 32 profiles, `get(profiles, k)` is the flags of the last sequence under `k`. |
| Config.ReadNames | src/config.c:178-188 | The four strings are read by key. |
| Config.ReadWorkspace | src/config.c:191-197 | A new record when the key holds a map, else NULL. |
| Config.ReadTargets | src/config.c:200-206 | A new record when the key holds a sequence, else NULL. |
| Config.ReadBuild | src/config.c:209-215 | A new record when the key holds a map, else NULL. |
| Config.ReadProfiles | src/config.c:218-224 | A new table when the key holds a map, else NULL. |
| Config.AnvilConfig.Dset | src/config.c:175-225 | NULL or a non-map leaves the record untouched. A map sets every field as `AnvilOf` says, each nested record or table new. |
| Config.AnvilConfig.SetRecords | src/config.c:190-206 | `workspace` and `targets` become new records as `AnvilOf` says, and the rest is kept. |
| Config.AnvilConfig.SetBuild | src/config.c:208-215 | `build` becomes a new valid record with new tables as `AnvilOf` says, and the rest is kept. |
| Config.AnvilConfig.SetProfiles | src/config.c:217-224 | `profiles` becomes a new valid table as `AnvilOf` says, and the rest is kept. |

## Left out

- Number conversion: `parse_number` keeps the token's text. `atof` and floating point are not modelled (src/yaml.c:417-439).
- Number conversion: the `_`-stripping copy of src/yaml.c:429-433 is not modelled, and its result is never read. As written, `while (i++ <= token.length)` runs its body for `i` from 1 to `length + 1`. So it skips `value[0]`, reads `value[length + 1]`, one byte past the terminator of `token_value`'s copy, and writes up to `length + 1` bytes into the `malloc(token.length)` buffer.
- Tokenizers.NextTokenF: the narrowing of src/yaml.c:101-103 is not modelled. There, the cursor, line and column are kept in `int start_position`, `int start_line` and `int start_column`, and `create_token` widens them back to `size_t`. Token positions, lines and columns are unbounded naturals, so they are exact only below 2^31. Past that point the source would carry a truncated, sign-extended start, and `token_value` would read from it; every member that returns tokens (the `Tokenizers`, `Parser` and `Yaml` modules) inherits this.
- Codecs.Interp: a filler is modelled as a function that either returns the text it appends or refuses, appending nothing. src/libs/z3_string.h:230-232 would also accept a filler that pushes bytes and then returns false, and both would end up in the result. `parser_filler`, the only filler used, never does this: its `TAB_INDENTATION` case returns false before pushing anything (src/paerr.c:37-70).
- Map and sequence payloads are values inside the node. C allocates a container node before its children; here it enters the heap once complete. Nothing observable depends on the order, except memory leaked on error.
- Physical freeing is a set of released ids. `free`, `realloc` failure and out-of-memory exits are not modelled, nor are `free_yaml` or the freeing of alias names in `parse_yaml`.
- Output: the `eprintf`/`fprintf`/`write` calls of `parser_error`, the tokenizer and `map_get_node` are left out. `parser_error` yields the bytes it would write to standard error (`Printed`), and `exit` is a `Failure` result.
- Diagnostics.ParserError: the tokenizer's current line, which numbers the gutters, is an input; the parser's `Failure` does not record it, so no lemma ties it to `error.pos` (after a multi-line value they differ).
- Diagnostics.ParserError: the report's column is `pos - line_start` as a natural number; the `(int)` cast of src/paerr.c:132 is not modelled.
- The debugging helpers `node_kind_to_string`, `seq_walk`, `map_walk`, `token_dbg`, `z3_vec_show`, `z3_vec_dbg` and the scoped-cleanup macros only print or free, and are left out.
- `z3_hashmap_drop` and `z3_drop_heap_vec` only free memory, and are left out.
- `target_needs_rebuild` in src/build.c compares file timestamps, and is left out.
- ZStrings.ZString.Str: `min` is limited to `2^63`, where `next_power_of2` still fits a 64-bit `size_t`. Build.ParseDependencies inherits the same bound on its input length. For `min` above 2^32 the capacity is only shown to hold `min`, since `next_power_of2` as written need not give a power of two there.
- ZStrings.ZString.StrCpy: the capacity is promised to be a power of two only when `len + 1` is one or is at most 2^32, for the same reason.
- HashMaps.HashMap.Put: keys and values are values (`seq<byte>`, `V`), so the `strdup` of the key and the freeing of a replaced value, or of a removed key's value, are not modelled.
- Config.ReadArguments: the `ArgumentConfig` records and the profile flag vectors stored in the hash maps are held by value, so aliasing of those addresses is not captured.
- Config.BuildTarget.Dset: the `TargetConfig *` entries are held by value for the same reason.
- Config.MacrosTable: the table lemmas cover at most 32 entries, the hash map's fixed capacity. Past that `put` silently drops keys, and the table then depends on the hashes.
- Config.AnvilConfig.Dset: the allocation of the root `AnvilConfig` in main.c is not part of this model, and neither is `print_anvil_config`. Fields of a root that is not a map stay whatever they were.
- NULL map keys and sequence items cannot arise from `parse_yaml`, so the `!key`/`!item` guards of src/config.c are modelled only through the node kinds.
- Keys are compared as byte sequences. `strcmp` stopping at an embedded NUL cannot matter, since keys come from NUL-free input.

## Findings

| source | as written | input that shows it | evidently intended | confidence | as-written member | corrected member |
|---|---|---|---|---|---|---|
| src/libs/z3_toys.h:71-79 | `next_power_of2` smears bits only with shifts up to 16, which covers 32 bits of a 64-bit `size_t` | `n = 2^32 + 1` returns `2^33 - 1` (8589934591), an odd number and not a power of two | a `n \|= n >> 32` step, so every `n <= 2^63` gives the least power of two at least `n` | not executed | Toys.AsWrittenWrongAbove32 | Toys.NextPowerOf2IsLeast |
| src/libs/z3_hashmap.h:151-153 | `z3_hashmap_remove` marks the slot unused, which cuts the probe chain of keys stored past it | `put("a")`, `put("A")` (both home slot 12), `remove("a")`: `get("A")` returns NULL | a tombstone (slot kept in use, key NULL), so other keys stay reachable | not executed | HashMaps.RemoveAsWrittenLosesKey | HashMaps.RemoveKeepsOthers |
| src/paerr.c:108-111 | `prev_start = line_start - 1` wraps around when the error is on the first line, and the loop reads before the input | any error on line 1, e.g. UNEXPECTED_TOKEN at the `1` of `a 1` | read a previous line only when `line_start > 0` | not executed | Diagnostics.AsWrittenFirstLine | Diagnostics.PreviousLineShape |
| src/paerr.c:120-124 | `next_start = line_end + 1` steps over the terminator when the error line is the last | any error on the last line, e.g. UNEXPECTED_TOKEN at the `1` of `a 1` | read a next line only when `line_end` holds a newline | not executed | Diagnostics.AsWrittenLastLine | Diagnostics.NextLineShape |
| src/paerr.c:112-117 | the previous line is copied into the 256-byte `prev_buffer` with no length check; the next line likewise (src/paerr.c:125-130) | a previous line of 256 bytes or more | clamp both lines as the error line is clamped (src/paerr.c:101-103) | not executed | Diagnostics.AsWrittenLongPrevious | Diagnostics.ParserError |
| src/config.c:134-159 | `macros` and `arguments` are assigned only when their key holds a map, so the `malloc`ed struct keeps garbage | `build: {compiler: "gcc"}` | set both to NULL otherwise, as `deps` is | not executed | Config.BuildAsWrittenExample | Config.BuildFields |
| src/config.c:164-168 | the `deps` array is not initialised, and `dset_dependency_config` returns early for a non-map item, leaving that record garbage | `build: {deps: [1]}` | a record of NULLs for such an item | not executed | Config.BuildAsWrittenKeepsGarbage | Config.BuildConfig.Dset |

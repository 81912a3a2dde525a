/**
 * `parse_dependencies` of build.c: the text of a make rule `target: dep1 dep2`
 * is split after its first colon into the whitespace-separated dependency
 * names, each copied into a fresh `String` pushed onto the caller's vector.
 */
module Build {
  import opened Bytes
  import opened Wrappers
  import opened ZStrings
  import opened Vectors

  /** The first `:` at or after `i`, or `|s|` when there is none. */
  function ColonFrom(s: seq<byte>, i: nat): (r: nat)
    requires i <= |s|
    ensures i <= r <= |s|
    ensures r < |s| ==> s[r] == ':'
    ensures forall k :: i <= k < r ==> s[k] != ':'
    decreases |s| - i
  {
    if i == |s| || s[i] == ':' then i else ColonFrom(s, i + 1)
  }

  /** The end of the run of non-whitespace bytes starting at `i`. */
  function RunEnd(s: seq<byte>, i: nat): (r: nat)
    requires i <= |s|
    ensures i <= r <= |s|
    ensures i < |s| && !IsSpace(s[i]) ==> r > i
    decreases |s| - i
  {
    if i < |s| && !IsSpace(s[i]) then RunEnd(s, i + 1) else i
  }

  /** The run ends at whitespace or at the end, and holds no whitespace. */
  lemma {:induction false} RunEndIsRun(s: seq<byte>, i: nat)
    requires i <= |s|
    ensures var r := RunEnd(s, i);
            (r < |s| ==> IsSpace(s[r])) && forall k :: i <= k < r ==> !IsSpace(s[k])
    decreases |s| - i
  {
    if i < |s| && !IsSpace(s[i]) {
      RunEndIsRun(s, i + 1);
    }
  }

  /** The maximal runs of non-whitespace bytes of `s` from index `i` on, in order. */
  function WordsFrom(s: seq<byte>, i: nat): seq<seq<byte>>
    requires i <= |s|
    decreases |s| - i
  {
    if i == |s| then []
    else if IsSpace(s[i]) then WordsFrom(s, i + 1)
    else
      var e := RunEnd(s, i);
      [s[i..e]] + WordsFrom(s, e)
  }

  function Words(s: seq<byte>): seq<seq<byte>>
  {
    WordsFrom(s, 0)
  }

  /** The dependency names of a rule: nothing without a colon, else the words after the first one. */
  function DependenciesOf(s: seq<byte>): seq<seq<byte>>
  {
    var c := ColonFrom(s, 0);
    if c == |s| then [] else WordsFrom(s, c + 1)
  }

  /** `t` with every whitespace byte removed. */
  function Squeeze(t: seq<byte>): seq<byte>
  {
    if t == [] then [] else (if IsSpace(t[0]) then [] else [t[0]]) + Squeeze(t[1..])
  }

  /** The words joined back to back. */
  function Concat(ws: seq<seq<byte>>): seq<byte>
  {
    if ws == [] then [] else ws[0] + Concat(ws[1..])
  }

  // ----- properties of the splitting -----

  /** `r` is the text of `s` from index `o` on. */
  predicate Embeds(s: seq<byte>, o: nat, r: seq<byte>)
  {
    |s| == o + |r| && forall j :: 0 <= j < |r| ==> s[o + j] == r[j]
  }

  lemma {:induction false} RunEndShift(s: seq<byte>, o: nat, r: seq<byte>, k: nat)
    requires Embeds(s, o, r) && k <= |r|
    ensures RunEnd(s, o + k) == o + RunEnd(r, k)
    decreases |r| - k
  {
    if k < |r| {
      assert s[o + k] == r[k];
      if !IsSpace(r[k]) {
        RunEndShift(s, o, r, k + 1);
      }
    }
  }

  lemma WordsShiftWord(s: seq<byte>, o: nat, r: seq<byte>, k: nat, e: nat)
    requires Embeds(s, o, r) && k < |r| && !IsSpace(r[k])
    requires e == RunEnd(r, k) && RunEnd(s, o + k) == o + e
    requires WordsFrom(s, o + e) == WordsFrom(r, e)
    ensures WordsFrom(s, o + k) == WordsFrom(r, k)
  {
    assert s[o + k] == r[k];
    assert s[o + k..o + e] == r[k..e] by {
      assert forall j :: k <= j < e ==> s[o + j] == r[j];
    }
  }

  /** The words of `s` from `o + k` are those of the text `r` from `o` on, from `k`. */
  lemma {:induction false} WordsShift(s: seq<byte>, o: nat, r: seq<byte>, k: nat)
    requires Embeds(s, o, r) && k <= |r|
    ensures WordsFrom(s, o + k) == WordsFrom(r, k)
    decreases |r| - k
  {
    if k < |r| {
      assert s[o + k] == r[k];
      if IsSpace(r[k]) {
        WordsShift(s, o, r, k + 1);
      } else {
        RunEndShift(s, o, r, k);
        var e := RunEnd(r, k);
        WordsShift(s, o, r, e);
        WordsShiftWord(s, o, r, k, e);
      }
    }
  }

  /** Only the text after the first colon contributes dependencies. */
  lemma DependenciesAfterColon(a: seq<byte>, b: seq<byte>)
    requires forall k :: 0 <= k < |a| ==> a[k] != ':'
    ensures DependenciesOf(a + ":" + b) == Words(b)
  {
    var s := a + ":" + b;
    assert s[|a|] == ':';
    assert ColonFrom(s, 0) == |a|;
    assert Embeds(s, |a| + 1, b);
    WordsShift(s, |a| + 1, b, 0);
  }

  /**
   * Every word is a non-empty run of non-whitespace bytes of `s` that cannot
   * be extended: it starts at `i` or after whitespace and ends at the end of
   * `s` or at whitespace.
   */
  lemma {:induction false} WordIsMaximalRun(s: seq<byte>, i: nat, k: nat) returns (x: nat, y: nat)
    requires i <= |s| && k < |WordsFrom(s, i)|
    ensures i <= x < y <= |s| && WordsFrom(s, i)[k] == s[x..y]
    ensures x == i || IsSpace(s[x - 1])
    ensures y == |s| || IsSpace(s[y])
    ensures forall j :: x <= j < y ==> !IsSpace(s[j])
    decreases |s| - i
  {
    if IsSpace(s[i]) {
      x, y := WordIsMaximalRun(s, i + 1, k);
    } else {
      var e := RunEnd(s, i);
      RunEndIsRun(s, i);
      if k == 0 {
        x, y := i, e;
      } else {
        assert WordsFrom(s, i)[k] == WordsFrom(s, e)[k - 1];
        x, y := WordIsMaximalRun(s, e, k - 1);
      }
    }
  }

  lemma {:induction false} SqueezeRun(s: seq<byte>, i: nat, e: nat)
    requires i <= e <= |s|
    requires forall j :: i <= j < e ==> !IsSpace(s[j])
    ensures Squeeze(s[i..]) == s[i..e] + Squeeze(s[e..])
    decreases e - i
  {
    if i < e {
      assert s[i..][1..] == s[i + 1..];
      SqueezeRun(s, i + 1, e);
      assert s[i..e] == [s[i]] + s[i + 1..e];
    }
  }

  /** Joined back to back, the words are the text with its whitespace removed. */
  lemma {:induction false} ConcatWords(s: seq<byte>, i: nat)
    requires i <= |s|
    ensures Concat(WordsFrom(s, i)) == Squeeze(s[i..])
    decreases |s| - i
  {
    if i == |s| {
    } else if IsSpace(s[i]) {
      assert s[i..][1..] == s[i + 1..];
      ConcatWords(s, i + 1);
    } else {
      var e := RunEnd(s, i);
      var w := WordsFrom(s, e);
      RunEndIsRun(s, i);
      assert ([s[i..e]] + w)[1..] == w;
      ConcatWords(s, e);
      SqueezeRun(s, i, e);
    }
  }

  /** The dependencies joined are the text after the first colon without its whitespace. */
  lemma DependenciesConcat(s: seq<byte>)
    ensures var c := ColonFrom(s, 0);
            c < |s| ==> Concat(DependenciesOf(s)) == Squeeze(s[c + 1..])
  {
    var c := ColonFrom(s, 0);
    if c < |s| {
      ConcatWords(s, c + 1);
    }
  }

  // ----- parse_dependencies -----

  /** `z3_str(len)` followed by `z3_pushl(&s, &str->chr[start], len)`. */
  method NewEntry(text: seq<byte>, start: nat, n: nat) returns (s: ZString)
    requires start + n <= |text| && 1 <= n <= 0x8000_0000_0000_0000
    ensures fresh(s) && fresh(s.chr) && s.Valid() && s.Contents() == text[start..start + n]
  {
    s := new ZString.Str(n);
    s.PushL(Some(text[start..start + n]), n);
  }

  /** The `skip spaces` loop: whitespace contributes no word. */
  method SkipSpaces(text: seq<byte>, from: nat) returns (i: nat)
    requires from <= |text|
    ensures from <= i <= |text| && (i < |text| ==> !IsSpace(text[i]))
    ensures WordsFrom(text, from) == WordsFrom(text, i)
  {
    i := from;
    while i < |text| && IsSpace(text[i])
      invariant from <= i <= |text| && WordsFrom(text, from) == WordsFrom(text, i)
    {
      i := i + 1;
    }
  }

  /** The loop over a word: it stops at the first whitespace byte or at the end. */
  method ScanWord(text: seq<byte>, start: nat) returns (i: nat)
    requires start <= |text|
    ensures i == RunEnd(text, start)
  {
    i := start;
    while i < |text| && !IsSpace(text[i])
      invariant start <= i <= |text| && RunEnd(text, i) == RunEnd(text, start)
    {
      i := i + 1;
    }
  }

  /** The strings `added` are valid and hold the words `done`, one each, in order. */
  ghost predicate Entries(added: seq<ZString>, done: seq<seq<byte>>)
    reads added, set x | x in added :: x.chr
  {
    |added| == |done| && forall k :: 0 <= k < |added| ==> added[k].Valid() && added[k].Contents() == done[k]
  }

  /**
   * One word: its fresh string is pushed onto `deps` after the strings
   * `base + added`, which are left as they were.
   */
  method PushEntry(text: seq<byte>, start: nat, n: nat, deps: Vector<ZString>,
                   ghost base: seq<ZString>, ghost added: seq<ZString>, ghost done: seq<seq<byte>>)
    returns (ghost added': seq<ZString>)
    requires start + n <= |text| && 1 <= n <= 0x8000_0000_0000_0000 && deps.Valid()
    requires deps.Elements() == base + added && Entries(added, done)
    modifies deps, deps.val
    ensures deps.Valid() && (deps.val == old(deps.val) || fresh(deps.val))
    ensures deps.Elements() == base + added' && Entries(added', done + [text[start..start + n]])
  {
    var s := NewEntry(text, start, n);
    deps.Push(s);
    added' := added + [s];
  }

  /**
   * One round of the loop after the colon: the whitespace is skipped and the
   * word after it, if any, gets its fresh string pushed onto `deps`.
   */
  method PushNextWord(text: seq<byte>, i: nat, deps: Vector<ZString>, ghost ws: seq<seq<byte>>,
                      ghost base: seq<ZString>, ghost added: seq<ZString>, ghost done: seq<seq<byte>>)
    returns (i': nat, ghost added': seq<ZString>, ghost done': seq<seq<byte>>)
    requires i < |text| <= 0x8000_0000_0000_0000 && deps.Valid()
    requires ws == done + WordsFrom(text, i)
    requires deps.Elements() == base + added && Entries(added, done)
    modifies deps, deps.val
    ensures i < i' <= |text|
    ensures deps.Valid() && (deps.val == old(deps.val) || fresh(deps.val))
    ensures ws == done' + WordsFrom(text, i')
    ensures deps.Elements() == base + added' && Entries(added', done')
  {
    i' := SkipSpaces(text, i);
    added', done' := added, done;
    if i' >= |text| {
      return;
    }

    var start := i';
    i' := ScanWord(text, i');
    ghost var w := text[start..i'];
    assert ws == (done + [w]) + WordsFrom(text, i') by {
      assert WordsFrom(text, start) == [w] + WordsFrom(text, i');
    }
    var len := i' - start;
    if len > 0 {
      assert text[start..start + len] == w;
      added' := PushEntry(text, start, len, deps, base, added, done);
      done' := done + [w];
    }
  }

  /**
   * The loop after the colon: a fresh string per word of `text` from `from`
   * on, pushed in order onto `deps` after what it held.
   */
  method PushWords(text: seq<byte>, from: nat, deps: Vector<ZString>) returns (ghost added: seq<ZString>)
    requires from <= |text| <= 0x8000_0000_0000_0000 && deps.Valid()
    modifies deps, deps.val
    ensures deps.Valid()
    ensures deps.Elements() == old(deps.Elements()) + added && Entries(added, WordsFrom(text, from))
  {
    var i := from;
    ghost var ws, base := WordsFrom(text, from), deps.Elements();
    ghost var done: seq<seq<byte>> := [];
    added := [];
    while i < |text|
      invariant from <= i <= |text| && deps.Valid() && (deps.val == old(deps.val) || fresh(deps.val))
      invariant ws == done + WordsFrom(text, i)
      invariant deps.Elements() == base + added && Entries(added, done)
      decreases |text| - i
    {
      i, added, done := PushNextWord(text, i, deps, ws, base, added, done);
    }
    assert done == ws;
  }

  /**
   * `parse_dependencies(str, deps)`: pushes onto `deps` a fresh string per
   * dependency name of the rule `str`, keeping what `deps` already held.
   */
  method ParseDependencies(str: ZString, deps: Vector<ZString>) returns (ghost added: seq<ZString>)
    requires str.Valid() && deps.Valid()
    requires |str.Contents()| <= 0x8000_0000_0000_0000
    modifies deps, deps.val
    ensures deps.Valid()
    ensures deps.Elements() == old(deps.Elements()) + added && |added| == |DependenciesOf(str.Contents())|
    ensures forall k :: 0 <= k < |added| ==>
              added[k].Valid() && added[k].Contents() == DependenciesOf(str.Contents())[k]
    ensures (forall k :: 0 <= k < |str.Contents()| ==> str.Contents()[k] != ':') ==>
              deps.Elements() == old(deps.Elements())
  {
    var text := str.Contents();
    var i := 0;
    while i < |text| && text[i] != ':'
      invariant i <= |text| && ColonFrom(text, i) == ColonFrom(text, 0)
    {
      i := i + 1;
    }
    if i >= |text| {
      assert DependenciesOf(text) == [];
      return [];
    }

    assert ColonFrom(text, 0) == i;

    // past the `:`
    i := i + 1;
    added := PushWords(text, i, deps);
    assert str.Contents() == text;
  }
}

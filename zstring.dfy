/**
 * The growable heap string of z3_string.h: a byte buffer `chr` of `max`
 * bytes holding `len` bytes of content followed by a NUL.  A string whose
 * `chr` is NULL is inert: every operation on it returns at once.
 */
module ZStrings {
  import opened Bytes
  import opened Wrappers
  import Toys

  /** The capacity `z3_reserve` reaches from `max` by doubling until it holds `need` bytes. */
  function Grow(max: nat, need: nat): (r: nat)
    requires max > 0
    ensures r >= need && r >= max
    ensures r == max || r < 2 * need
    decreases need - max
  {
    if max >= need then max else Grow(2 * max, need)
  }

  /** The capacity Grow reaches is `max` times a power of two. */
  lemma {:induction false} GrowIsDoubling(max: nat, need: nat) returns (j: nat)
    requires max > 0
    ensures Grow(max, need) == max * Toys.Pow2(j)
    decreases need - max
  {
    if max >= need {
      j := 0;
    } else {
      var j' := GrowIsDoubling(2 * max, need);
      j := j' + 1;
      assert 2 * max * Toys.Pow2(j') == max * (2 * Toys.Pow2(j'));
    }
  }

  /** The `memcpy` of `z3_pushl`: `src` written into `a` from index `at`. */
  method CopyInto(a: array<byte>, at: nat, src: seq<byte>)
    requires at + |src| <= a.Length
    modifies a
    ensures a[..at] == old(a[..at]) && a[at..at + |src|] == src
  {
    var k := 0;
    while k < |src|
      invariant 0 <= k <= |src|
      invariant a[..at] == old(a[..at])
      invariant a[at..at + k] == src[..k]
    {
      a[at + k] := src[k];
      assert a[at..at + k + 1] == a[at..at + k] + [src[k]];
      k := k + 1;
    }
  }

  class ZString {
    var max: nat
    var len: nat
    var chr: array?<byte>

    /** NULL buffer means an empty, zero-capacity string; otherwise content, NUL and spare room. */
    ghost predicate Valid()
      reads this, chr
    {
      (chr == null ==> len == 0 && max == 0) &&
      (chr != null ==> chr.Length == max && len < max && chr[len] == NUL)
    }

    /** The `len` content bytes. */
    function Contents(): seq<byte>
      reads this, chr
      requires Valid()
    {
      if chr == null then [] else chr[..len]
    }

    /**
     * `z3_str(min)`: an empty string whose capacity is what `next_power_of2(min)`
     * computes as written: at least `min`, and the least power of two that
     * holds it when `min` is at most 2^32.
     */
    constructor Str(min: nat)
      requires 1 <= min <= 0x8000_0000_0000_0000
      ensures Valid() && chr != null && fresh(chr)
      ensures max == Toys.NextPowerOf2AsWritten(min) && max >= min
      ensures min <= 0x1_0000_0000 ==> max == Toys.Pow2(Toys.CeilLog2(min))
      ensures len == 0 && Contents() == []
    {
      Toys.AsWrittenCovers(min);
      if min <= 0x1_0000_0000 {
        Toys.AsWrittenAgreesUpTo32(min);
        Toys.NextPowerOf2Exact(min);
      }
      max := Toys.NextPowerOf2AsWritten(min);
      len := 0;
      var a := new byte[Toys.NextPowerOf2AsWritten(min)](_ => NUL);
      chr := a;
    }

    /**
     * `z3_strcpy(s)` for the C string whose bytes before the terminator are
     * `s`: capacity `len + 1` when that is a power of two, else what
     * `next_power_of2` computes as written; a power of two, the least that
     * holds `len + 1`, whenever `len + 1` is at most 2^32.
     */
    constructor StrCpy(s: seq<byte>)
      requires NulFree(s) && |s| < 0x8000_0000_0000_0000
      ensures Valid() && chr != null && fresh(chr)
      ensures len == |s| && Contents() == s
      ensures max == (if Toys.IsPowerOfTwo(|s| + 1) then |s| + 1 else Toys.NextPowerOf2AsWritten(|s| + 1))
      ensures Toys.IsPowerOfTwo(|s| + 1) || |s| + 1 <= 0x1_0000_0000 ==>
                max == Toys.Pow2(Toys.CeilLog2(|s| + 1)) && Toys.IsPowerOfTwo(max)
    {
      var n := |s| + 1;
      var m: nat;
      if Toys.IsPowerOfTwo(n) {
        Toys.PowerOfTwoIsPow2(n);
        m := n;
      } else {
        Toys.AsWrittenCovers(n);
        if n <= 0x1_0000_0000 {
          Toys.AsWrittenAgreesUpTo32(n);
          Toys.NextPowerOf2Exact(n);
        }
        m := Toys.NextPowerOf2AsWritten(n);
      }
      Toys.CeilLog2Bounds(n);
      Toys.Pow2IsPowerOfTwo(Toys.CeilLog2(n));
      var a := new byte[m](_ => NUL);
      forall k | 0 <= k < |s| {
        a[k] := s[k];
      }
      max, len, chr := m, |s|, a;
    }

    /** `z3_strdup(src)`: a separate buffer with the same length, capacity and bytes. */
    constructor StrDup(src: ZString)
      requires src.Valid()
      ensures Valid()
      ensures src.chr == null ==> chr == null && len == 0 && max == 0
      ensures src.chr != null ==> fresh(chr) && max == src.max && len == src.len
      ensures Contents() == src.Contents()
    {
      if src.chr == null {
        max, len, chr := 0, 0, null;
      } else {
        var a := new byte[src.max](_ => NUL);
        var k := 0;
        while k < src.len
          invariant 0 <= k <= src.len
          invariant a[..k] == src.chr[..k]
          invariant a[src.len] == NUL
        {
          a[k] := src.chr[k];
          k := k + 1;
        }
        max, len, chr := src.max, src.len, a;
      }
    }

    /** `z3_reserve(str, additional)`: room for `additional` more bytes and the NUL. */
    method Reserve(additional: nat)
      requires Valid()
      modifies this
      ensures Valid() && len == old(len) && Contents() == old(Contents())
      ensures old(chr) == null ==> chr == null && max == 0
      ensures old(chr) != null ==> chr != null && max == Grow(old(max), len + additional + 1)
      ensures chr == old(chr) || fresh(chr)
    {
      if chr == null {
        return;
      }
      var need := len + additional + 1;
      if need > max {
        var m := max;
        while m < need
          invariant m > 0 && Grow(m, need) == Grow(max, need)
          decreases need - m
        {
          m := 2 * m;
        }
        var a := new byte[m](_ => NUL);
        forall k | 0 <= k < chr.Length {
          a[k] := chr[k];
        }
        max, chr := m, a;
      }
    }

    /** `z3_ensure0(str)`: the byte after the content is NUL. */
    method Ensure0()
      requires Valid()
      modifies chr
      ensures Valid() && Contents() == old(Contents())
    {
      if chr != null {
        chr[len] := NUL;
      }
    }

    /** `z3_pushc(str, c)`: append one byte. */
    method PushC(c: byte)
      requires Valid()
      modifies this, chr
      ensures Valid()
      ensures old(chr) == null ==> chr == null && len == 0 && max == 0
      ensures old(chr) != null ==> chr != null && Contents() == old(Contents()) + [c] && len == old(len) + 1
      ensures old(chr) != null ==> max == Grow(old(max), old(len) + 2)
      ensures chr == old(chr) || fresh(chr)
    {
      if chr == null {
        return;
      }
      Reserve(1);
      chr[len] := c;
      len := len + 1;
      chr[len] := NUL;
    }

    /**
     * `z3_pushl(str, s, l)`: append the first `l` bytes of `s`; `None` is a
     * NULL `s`.  Nothing happens for a NULL string, a NULL `s` or `l == 0`.
     */
    method PushL(s: Option<seq<byte>>, l: nat)
      requires Valid()
      requires s.Some? ==> l <= |s.value|
      modifies this, chr
      ensures Valid()
      ensures old(chr) == null || s.None? || l == 0 ==>
                chr == old(chr) && len == old(len) && max == old(max) && Contents() == old(Contents())
      ensures old(chr) != null && s.Some? && l > 0 ==>
                chr != null && Contents() == old(Contents()) + s.value[..l] && len == old(len) + l &&
                max == Grow(old(max), old(len) + l + 1)
      ensures chr == old(chr) || fresh(chr)
    {
      if chr == null || s.None? || l == 0 {
        return;
      }
      Reserve(l);
      var base := len;
      CopyInto(chr, base, s.value[..l]);
      len := base + l;
      chr[len] := NUL;
      assert chr[..len] == chr[..base] + chr[base..base + l];
    }

    /** `z3_drops(str)`: release the buffer; on an already released string it does nothing. */
    method Drops()
      requires Valid()
      modifies this
      ensures Valid() && chr == null && len == 0 && max == 0
      ensures old(chr) == null ==> unchanged(this)
    {
      if chr == null {
        return;
      }
      chr, len, max := null, 0, 0;
    }
  }
}

/** Sunday's substring search (SundayMatch.c): a skip table indexed by the byte just past the
    window, against the definition of a leftmost occurrence. */
module SundayMatch {
  import opened Basics

  ghost predicate OccursAt(text: seq<Byte>, pattern: seq<Byte>, i: int) {
    0 <= i && i + |pattern| <= |text| && forall j :: 0 <= j < |pattern| ==> text[i + j] == pattern[j]
  }

  /** `r` is the leftmost occurrence, or -1 when there is none. */
  ghost predicate IsLeftmost(text: seq<Byte>, pattern: seq<Byte>, r: int) {
    && (r == -1 || OccursAt(text, pattern, r))
    && forall k :: OccursAt(text, pattern, k) ==> 0 <= r <= k
  }

  /** The result depends on the text and the pattern alone. */
  lemma LeftmostUnique(text: seq<Byte>, pattern: seq<Byte>, r: int, q: int)
    requires IsLeftmost(text, pattern, r) && IsLeftmost(text, pattern, q)
    ensures r == q
  {
  }

  /** The skip for byte `b`: the distance from its last place in the pattern to just past the
      pattern, or one more than the pattern's length when it is absent. */
  ghost function Skip(pattern: seq<Byte>, b: Byte): nat {
    if pattern == [] then 1
    else if pattern[|pattern| - 1] == b then 1
    else 1 + Skip(pattern[..|pattern| - 1], b)
  }

  /** `Skip` is the least distance at which the byte past the window can be matched. */
  lemma {:induction false} SkipIsLeast(pattern: seq<Byte>, b: Byte)
    ensures 1 <= Skip(pattern, b) <= |pattern| + 1
    ensures forall q :: |pattern| - Skip(pattern, b) < q < |pattern| ==> pattern[q] != b
    ensures Skip(pattern, b) <= |pattern| ==> pattern[|pattern| - Skip(pattern, b)] == b
    decreases |pattern|
  {
    if pattern != [] && pattern[|pattern| - 1] != b {
      var front := pattern[..|pattern| - 1];
      SkipIsLeast(front, b);
      forall q | |pattern| - Skip(pattern, b) < q < |pattern|
        ensures pattern[q] != b
      {
        assert q < |front| ==> front[q] != b;
      }
    }
  }

  /** A skip passes no occurrence, wherever the text ends and whatever byte lies past it. */
  lemma SkipPassesNone(text: seq<Byte>, pattern: seq<Byte>, i: nat, past: Byte, k: int)
    requires i + |pattern| <= |text|
    requires i + |pattern| < |text| ==> past == text[i + |pattern|]
    requires i < k < i + Skip(pattern, past)
    ensures !OccursAt(text, pattern, k)
  {
    SkipIsLeast(pattern, past);
    if 0 <= k && k + |pattern| <= |text| {
      var j := i + |pattern| - k;
      assert text[k + j] == past != pattern[j];
    }
  }

  method FillSkips(shift: array<nat>, pattern: seq<Byte>)
    requires shift.Length == 256
    modifies shift
    ensures forall b: Byte :: shift[b] == Skip(pattern, b)
  {
    var m := |pattern|;
    for a := 0 to 256
      invariant forall c :: 0 <= c < a ==> shift[c] == m + 1
    {
      shift[a] := m + 1;
    }
    forall b: Byte
      ensures Skip(pattern[..0], b) == 1
    {
    }
    for i := 0 to m
      invariant forall b: Byte :: shift[b] == Skip(pattern[..i], b) + (m - i)
    {
      assert forall b: Byte ::
          Skip(pattern[..i + 1], b) == if pattern[i] == b then 1 else 1 + Skip(pattern[..i], b) by {
        assert pattern[..i + 1][..i] == pattern[..i];
      }
      shift[pattern[i]] := m - i;
    }
    assert pattern[..m] == pattern;
  }

  /** `sunday_match` on a buffer whose first `srcLen` bytes are the text.  One byte past the
      text may be read; the result is stated in terms of the text alone. */
  method Match(src: array<Byte>, srcLen: nat, pattern: seq<Byte>) returns (r: int)
    requires srcLen < src.Length && pattern != []
    ensures IsLeftmost(src[..srcLen], pattern, r)
    ensures r == -1 <==> forall k :: !OccursAt(src[..srcLen], pattern, k)
    ensures r >= 0 ==> r + |pattern| <= srcLen && src[r..r + |pattern|] == pattern
    ensures r >= 0 ==> forall k :: OccursAt(src[..srcLen], pattern, k) ==> r <= k
  {
    var shift := new nat[256](_ => 0);
    FillSkips(shift, pattern);
    ghost var text := src[..srcLen];
    var m := |pattern|;
    var i := 0;
    while i <= srcLen - m
      invariant 0 <= i
      invariant forall k :: k < i ==> !OccursAt(text, pattern, k)
      invariant forall b: Byte :: shift[b] == Skip(pattern, b)
      decreases srcLen - m - i
    {
      var j := 0;
      while src[i + j] == pattern[j]
        invariant 0 <= j < m
        invariant forall q :: 0 <= q < j ==> text[i + q] == pattern[q]
        decreases m - j
      {
        j := j + 1;
        if j >= m {
          return i;
        }
      }
      assert !OccursAt(text, pattern, i) by {
        assert text[i + j] != pattern[j];
      }
      var past := src[i + m];
      SkipIsLeast(pattern, past);
      forall k | k < i + Skip(pattern, past)
        ensures !OccursAt(text, pattern, k)
      {
        if i < k {
          SkipPassesNone(text, pattern, i, past, k);
        }
      }
      i := i + shift[past];
    }
    return -1;
  }
}

/** Small shared vocabulary: optional values, results, bytes and 32-bit ranges. */
module Common {

  /** A value that may be absent (Python's None). */
  datatype Option<+T> = None | Some(value: T) {
    /** The value, or `default` when absent (dict.get with a default). */
    function GetOr(default: T): T {
      match this
      case Some(v) => v
      case None => default
    }
  }

  /** The outcome of an operation that raises in the original. */
  datatype Result<+T, +E> = Success(value: T) | Failure(error: E)

  /** One octet of a byte stream. */
  newtype byte = x: int | 0 <= x < 0x100

  /** The range of an unsigned 32-bit field (struct format `I`). */
  const U32Limit: int := 0x1_0000_0000

  predicate InU32(x: int) {
    0 <= x < U32Limit
  }

  /** A 32-bit word, used for opaque audio samples. */
  newtype u32 = x: int | 0 <= x < 0x1_0000_0000

  function Min(a: int, b: int): int {
    if a <= b then a else b
  }

  /** Concatenation of a sequence of sequences, in order. */
  function Flatten<T>(xss: seq<seq<T>>): seq<T>
    decreases |xss|
  {
    if |xss| == 0 then [] else xss[0] + Flatten(xss[1..])
  }

  lemma {:induction false} FlattenAppend<T>(a: seq<seq<T>>, b: seq<seq<T>>)
    ensures Flatten(a + b) == Flatten(a) + Flatten(b)
    decreases |a|
  {
    if |a| == 0 {
      assert a + b == b;
    } else {
      assert (a + b)[1..] == a[1..] + b;
      FlattenAppend(a[1..], b);
    }
  }

  // ---------------------------------------------------------------------------
  // Stripping, for any notion of whitespace
  // ---------------------------------------------------------------------------

  /** Every element of s has the property p. */
  predicate All<T>(s: seq<T>, p: T -> bool) {
    forall k :: 0 <= k < |s| ==> p(s[k])
  }

  /** r is what stripping the elements satisfying `space` from both ends
      of s leaves: a stretch of s with only such elements before and after
      it in s, and none at its own ends. */
  ghost predicate IsStripped<T>(s: seq<T>, r: seq<T>, space: T -> bool) {
    && (|r| == 0 || (!space(r[0]) && !space(r[|r| - 1])))
    && exists i, j :: 0 <= i <= j <= |s| && r == s[i..j] && All(s[..i], space) && All(s[j..], space)
  }

  /** Drop the leading elements satisfying `space`. */
  function StripStartBy<T>(s: seq<T>, space: T -> bool): (r: seq<T>)
    ensures |r| == 0 || !space(r[0])
    ensures |s| == 0 || !space(s[0]) ==> r == s
    decreases |s|
  {
    if |s| > 0 && space(s[0]) then StripStartBy(s[1..], space) else s
  }

  /** Drop the trailing elements satisfying `space`. */
  function StripEndBy<T>(s: seq<T>, space: T -> bool): (r: seq<T>)
    ensures |r| == 0 || !space(r[|r| - 1])
    ensures |s| == 0 || !space(s[|s| - 1]) ==> r == s
    ensures |r| > 0 ==> r[0] == s[0]
    decreases |s|
  {
    if |s| > 0 && space(s[|s| - 1]) then StripEndBy(s[..|s| - 1], space) else s
  }

  /** Drop the elements satisfying `space` from both ends; a sequence with
      none there is returned unchanged. StripByStrips says what was cut. */
  function StripBy<T>(s: seq<T>, space: T -> bool): (r: seq<T>)
    ensures |r| == 0 || (!space(r[0]) && !space(r[|r| - 1]))
    ensures (|s| == 0 || (!space(s[0]) && !space(s[|s| - 1]))) ==> r == s
  {
    StripEndBy(StripStartBy(s, space), space)
  }

  /** StripStartBy cuts a prefix of such elements. */
  lemma {:induction false} StripStartByCuts<T>(s: seq<T>, space: T -> bool)
    ensures var r := StripStartBy(s, space);
      && |r| <= |s| && r == s[|s| - |r|..]
      && forall k :: 0 <= k < |s| - |r| ==> space(s[k])
    decreases |s|
  {
    if |s| > 0 && space(s[0]) {
      StripStartByCuts(s[1..], space);
    }
  }

  /** StripEndBy cuts a suffix of such elements. */
  lemma {:induction false} StripEndByCuts<T>(s: seq<T>, space: T -> bool)
    ensures var r := StripEndBy(s, space);
      && |r| <= |s| && r == s[..|r|]
      && forall k :: |r| <= k < |s| ==> space(s[k])
    decreases |s|
  {
    if |s| > 0 && space(s[|s| - 1]) {
      StripEndByCuts(s[..|s| - 1], space);
    }
  }

  /** StripBy cuts such elements from both ends and nothing else, and
      leaves nothing exactly when every element is one. */
  lemma StripByStrips<T>(s: seq<T>, space: T -> bool)
    ensures IsStripped(s, StripBy(s, space), space)
    ensures StripBy(s, space) == [] <==> All(s, space)
  {
    var a := StripStartBy(s, space);
    var r := StripEndBy(a, space);
    assert StripBy(s, space) == r;
    StripStartByCuts(s, space);
    StripEndByCuts(a, space);
    StrippedByEnds(s, a, r, space);
    StrippedEmpty(s, r, space);
  }

  /** StripBy is the only way to strip. */
  lemma StripByUnique<T>(s: seq<T>, stripped: seq<T>, space: T -> bool)
    requires IsStripped(s, stripped, space)
    ensures StripBy(s, space) == stripped
  {
    StripByStrips(s, space);
    StrippedUnique(s, StripBy(s, space), stripped, space);
  }

  /** Cutting such elements off the front, then off the back, strips. */
  lemma StrippedByEnds<T>(s: seq<T>, a: seq<T>, r: seq<T>, space: T -> bool)
    requires |a| <= |s| && a == s[|s| - |a|..]
    requires forall k :: 0 <= k < |s| - |a| ==> space(s[k])
    requires |a| == 0 || !space(a[0])
    requires |r| <= |a| && r == a[..|r|]
    requires forall k :: |r| <= k < |a| ==> space(a[k])
    requires |r| == 0 || !space(r[|r| - 1])
    ensures IsStripped(s, r, space)
  {
    var i := |s| - |a|;
    var j := i + |r|;
    assert r == s[i..j];
    forall k | 0 <= k < i
      ensures space(s[..i][k])
    {
      assert s[..i][k] == s[k];
    }
    forall k | 0 <= k < |s| - j
      ensures space(s[j..][k])
    {
      assert s[j..][k] == a[|r| + k];
    }
    assert All(s[..i], space) && All(s[j..], space);
  }

  /** Stripping leaves nothing exactly when everything is whitespace. */
  lemma StrippedEmpty<T>(s: seq<T>, r: seq<T>, space: T -> bool)
    requires IsStripped(s, r, space)
    ensures r == [] <==> All(s, space)
  {
    var i, j :| 0 <= i <= j <= |s| && r == s[i..j] && All(s[..i], space) && All(s[j..], space);
    if r == [] {
      forall k | 0 <= k < |s|
        ensures space(s[k])
      {
        if k < i {
          assert s[..i][k] == s[k];
        } else {
          assert s[j..][k - j] == s[k];
        }
      }
    }
  }

  /** Stripping has exactly one answer. */
  lemma StrippedUnique<T>(s: seq<T>, r1: seq<T>, r2: seq<T>, space: T -> bool)
    requires IsStripped(s, r1, space) && IsStripped(s, r2, space)
    ensures r1 == r2
  {
    StrippedEmpty(s, r1, space);
    StrippedEmpty(s, r2, space);
    if r1 != [] && r2 != [] {
      var i1, j1 :| 0 <= i1 <= j1 <= |s| && r1 == s[i1..j1] && All(s[..i1], space) && All(s[j1..], space);
      var i2, j2 :| 0 <= i2 <= j2 <= |s| && r2 == s[i2..j2] && All(s[..i2], space) && All(s[j2..], space);
      StretchesAgree(s, space, r1, i1, j1, r2, i2, j2);
    }
  }

  lemma StretchesAgree<T>(s: seq<T>, space: T -> bool,
                          r1: seq<T>, i1: int, j1: int, r2: seq<T>, i2: int, j2: int)
    requires 0 <= i1 <= j1 <= |s| && r1 == s[i1..j1] && All(s[..i1], space) && All(s[j1..], space)
    requires 0 <= i2 <= j2 <= |s| && r2 == s[i2..j2] && All(s[..i2], space) && All(s[j2..], space)
    requires r1 != [] && !space(r1[0]) && !space(r1[|r1| - 1])
    requires r2 != [] && !space(r2[0]) && !space(r2[|r2| - 1])
    ensures r1 == r2
  {
    StretchEnds(s, r1, i1, j1, space);
    StretchEnds(s, r2, i2, j2, space);
    StartsAgree(s, i1, i2, space);
    StartsAgree(s, i2, i1, space);
    EndsAgree(s, j1, j2, space);
    EndsAgree(s, j2, j1, space);
  }

  /** The ends of a non-empty stretch are elements of s. */
  lemma StretchEnds<T>(s: seq<T>, r: seq<T>, i: int, j: int, space: T -> bool)
    requires 0 <= i <= j <= |s| && r == s[i..j] && r != []
    requires !space(r[0]) && !space(r[|r| - 1])
    ensures i < j && !space(s[i]) && !space(s[j - 1])
  {
    assert |r| == j - i;
    assert r[0] == s[i] && r[j - i - 1] == s[j - 1];
  }

  /** No whitespace-only prefix reaches past a non-space element. */
  lemma StartsAgree<T>(s: seq<T>, i1: int, i2: int, space: T -> bool)
    requires 0 <= i1 < |s| && 0 <= i2 <= |s|
    requires !space(s[i1]) && All(s[..i2], space)
    ensures i2 <= i1
  {
  }

  /** No whitespace-only suffix reaches before a non-space element. */
  lemma EndsAgree<T>(s: seq<T>, j1: int, j2: int, space: T -> bool)
    requires 0 < j1 <= |s| && 0 <= j2 <= |s|
    requires !space(s[j1 - 1]) && All(s[j2..], space)
    ensures j1 <= j2
  {
  }
}

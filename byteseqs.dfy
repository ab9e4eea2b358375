/** Specifications, on plain byte sequences, of what the in-place ByteArray
    primitives compute: the block move, the range reversal, the naive pattern
    search and the clamped lexicographic comparison. */
module ByteSeqs {
  import opened Results

  // ---------------------------------------------------------------------------
  // Block move

  /** `s` after `cnt` bytes at `src` are copied to `dst` as if through a
      temporary buffer, so overlapping ranges are handled (memmove). */
  function Moved(s: seq<bv8>, src: nat, cnt: nat, dst: nat): seq<bv8>
    requires src + cnt <= |s| && dst + cnt <= |s|
  {
    s[..dst] + s[src..src + cnt] + s[dst + cnt..]
  }

  /** Byte by byte: the destination range holds the old source range, every
      other byte is the old one. */
  lemma MovedAt(s: seq<bv8>, src: nat, cnt: nat, dst: nat, k: nat)
    requires src + cnt <= |s| && dst + cnt <= |s| && k < |s|
    ensures |Moved(s, src, cnt, dst)| == |s|
    ensures Moved(s, src, cnt, dst)[k] == if dst <= k < dst + cnt then s[src + (k - dst)] else s[k]
  {
    if k < dst {
      assert Moved(s, src, cnt, dst)[k] == s[..dst][k];
    } else if k < dst + cnt {
      assert Moved(s, src, cnt, dst)[k] == s[src..src + cnt][k - dst];
    } else {
      assert Moved(s, src, cnt, dst)[k] == s[dst + cnt..][k - dst - cnt];
    }
  }

  // ---------------------------------------------------------------------------
  // Range reversal

  /** Reverse `s[lo..hi]` by swapping the outermost pair and going inwards,
      as the two-pointer loop does; a range of at most one byte is unchanged. */
  function ReverseRange(s: seq<bv8>, lo: nat, hi: nat): (r: seq<bv8>)
    requires hi <= |s|
    ensures |r| == |s|
    decreases hi - lo
  {
    if hi <= lo + 1 then s
    else ReverseRange(s[lo := s[hi - 1]][hi - 1 := s[lo]], lo + 1, hi - 1)
  }

  /** The reversed range read position by position: byte `k` of the range
      comes from its mirror position `lo + hi - 1 - k`. */
  lemma {:induction false} ReverseRangeAt(s: seq<bv8>, lo: nat, hi: nat, k: nat)
    requires hi <= |s| && k < |s|
    ensures ReverseRange(s, lo, hi)[k] == if lo <= k < hi then s[lo + hi - 1 - k] else s[k]
    decreases hi - lo
  {
    if hi > lo + 1 {
      var t := s[lo := s[hi - 1]][hi - 1 := s[lo]];
      ReverseRangeAt(t, lo + 1, hi - 1, k);
    }
  }

  /** The clamped reversal of the `reverse` primitive: nothing happens when
      `total <= 0`, `start < 0` or `start >= |s|`; otherwise `s[start..total]`
      is reversed.  `total` is an exclusive end that is never checked against
      the size, so it must not exceed it whenever the guard lets it through. */
  function ReverseSpec(s: seq<bv8>, start: int, total: int): (r: seq<bv8>)
    requires total <= 0 || start < 0 || start >= |s| || total <= |s|
    ensures |r| == |s|
  {
    if total <= 0 || start < 0 || start >= |s| then s
    else ReverseRange(s, start, total)
  }

  /** Reversing the same range twice restores the buffer. */
  lemma ReverseSpecTwice(s: seq<bv8>, start: int, total: int)
    requires total <= 0 || start < 0 || start >= |s| || total <= |s|
    ensures ReverseSpec(ReverseSpec(s, start, total), start, total) == s
  {
    if !(total <= 0 || start < 0 || start >= |s|) {
      var t := ReverseRange(s, start, total);
      forall k | 0 <= k < |s| ensures ReverseRange(t, start, total)[k] == s[k] {
        ReverseRangeAt(t, start, total, k);
        if start <= k < total {
          ReverseRangeAt(s, start, total, start + total - 1 - k);
        } else {
          ReverseRangeAt(s, start, total, k);
        }
      }
    }
  }

  // ---------------------------------------------------------------------------
  // Naive search

  /** `pat` occurs in `s` starting at offset `i`. */
  predicate MatchesAt(s: seq<bv8>, pat: seq<bv8>, i: int) {
    0 <= i && i + |pat| <= |s| && forall k :: 0 <= k < |pat| ==> s[i + k] == pat[k]
  }

  /** The least offset in `[lo, hi)` where `pat` occurs, if any. */
  function FirstMatch(s: seq<bv8>, pat: seq<bv8>, lo: int, hi: int): (r: Option<int>)
    ensures r.Some? ==> lo <= r.value < hi && MatchesAt(s, pat, r.value)
    ensures r.Some? ==> forall i :: lo <= i < r.value ==> !MatchesAt(s, pat, i)
    ensures r.None? ==> forall i :: lo <= i < hi ==> !MatchesAt(s, pat, i)
    decreases hi - lo
  {
    if lo >= hi then None
    else if MatchesAt(s, pat, lo) then Some(lo)
    else FirstMatch(s, pat, lo + 1, hi)
  }

  /** The exclusive bound on match starts used by `locate`: `max` is clamped
      to the size and lowered by `len - 1`, so a match ends by `min(max, size)`. */
  function LocateLimit(size: int, len: int, max: int): int {
    (if max > size then size else max) - (len - 1)
  }

  /** The offsets `locate` reads are in the buffer: either nothing is read
      at all or the scan starts at a non-negative offset (never checked). */
  predicate LocateDefined(size: int, len: int, start: int, max: int) {
    len == 0 || max == 0 || start >= 0 || start >= LocateLimit(size, len, max)
  }

  /** What `locate` returns: `start` for an empty pattern, nothing when
      `max == 0`, otherwise the END offset of the leftmost match that starts
      at or after `start` and ends by `min(max, |s|)`. */
  function LocateSpec(s: seq<bv8>, pat: seq<bv8>, start: int, max: int): Option<int> {
    if |pat| == 0 then Some(start)
    else if max == 0 then None
    else match FirstMatch(s, pat, start, LocateLimit(|s|, |pat|, max))
      case Some(i) => Some(i + |pat|)
      case None => None
  }

  /** A non-empty pattern with `max != 0`: `locate` finds an end offset `e`
      exactly when the pattern occurs at `e - |pat|` within the window, and
      no earlier start in the window holds a match. */
  lemma LocateSpecMeaning(s: seq<bv8>, pat: seq<bv8>, start: int, max: int)
    requires |pat| > 0 && max != 0
    ensures var r := LocateSpec(s, pat, start, max);
      && (r.Some? ==>
            && start <= r.value - |pat|
            && r.value <= (if max > |s| then |s| else max)
            && MatchesAt(s, pat, r.value - |pat|)
            && forall i :: start <= i < r.value - |pat| ==> !MatchesAt(s, pat, i))
      && (r.None? ==>
            forall i :: start <= i && i + |pat| <= max ==> !MatchesAt(s, pat, i))
  {
    var hi := LocateLimit(|s|, |pat|, max);
    var m := FirstMatch(s, pat, start, hi);
    if m.None? {
      forall i | start <= i && i + |pat| <= max ensures !MatchesAt(s, pat, i) {
      }
    }
  }

  // ---------------------------------------------------------------------------
  // Comparison

  /** memcmp over the first `len` bytes, as unsigned bytes: the sign of the
      first difference, 0 when the prefixes agree. */
  function Memcmp(x: seq<bv8>, y: seq<bv8>, len: nat): int
    requires len <= |x| && len <= |y|
    decreases len
  {
    if len == 0 then 0
    else if x[0] < y[0] then -1
    else if x[0] > y[0] then 1
    else Memcmp(x[1..], y[1..], len - 1)
  }

  /** The clamped comparison of `compare_bytes`, for non-negative limits:
      clamp each limit to its buffer, memcmp the shorter length and break
      a tie by the clamped limits. */
  function Compare(x: seq<bv8>, y: seq<bv8>, slim: nat, olim: nat): int {
    var m := if |x| < slim then |x| else slim;
    var n := if |y| < olim then |y| else olim;
    var len := if m < n then m else n;
    var cmp := Memcmp(x, y, len);
    if cmp == 0 then (if m < n then -1 else if m > n then 1 else 0)
    else if cmp < 0 then -1 else 1
  }

  /** Reference order: `x` is a proper prefix of `y`, or `x` has the smaller
      byte at the first position where the two differ. */
  ghost predicate LexLess(x: seq<bv8>, y: seq<bv8>) {
    || (|x| < |y| && x == y[..|x|])
    || exists k :: 0 <= k < |x| && k < |y| && x[..k] == y[..k] && x[k] < y[k]
  }

  lemma LexLessIrreflexive(x: seq<bv8>)
    ensures !LexLess(x, x)
  {}

  lemma LexLessAsymmetric(x: seq<bv8>, y: seq<bv8>)
    ensures !(LexLess(x, y) && LexLess(y, x))
  {
  }

  /** First position below `len` where `x` and `y` differ, `len` if none. */
  function FirstDiff(x: seq<bv8>, y: seq<bv8>, len: nat): (k: nat)
    requires len <= |x| && len <= |y|
    ensures k <= len && x[..k] == y[..k] && (k < len ==> x[k] != y[k])
    decreases len
  {
    if len == 0 || x[0] != y[0] then 0
    else
      var k := FirstDiff(x[1..], y[1..], len - 1);
      assert x[..k + 1] == [x[0]] + x[1..][..k] && y[..k + 1] == [y[0]] + y[1..][..k];
      k + 1
  }

  /** memcmp is decided at the first difference: 0 when there is none in
      the first `len` bytes, otherwise the order of the two bytes there. */
  lemma {:induction false} MemcmpAtFirstDiff(x: seq<bv8>, y: seq<bv8>, len: nat)
    requires len <= |x| && len <= |y|
    ensures var k := FirstDiff(x, y, len);
      Memcmp(x, y, len) == if k == len then 0 else if x[k] < y[k] then -1 else 1
    decreases len
  {
    if len > 0 && x[0] == y[0] {
      MemcmpAtFirstDiff(x[1..], y[1..], len - 1);
    }
  }

  /** The clamped comparison is the lexicographic order of the two clamped
      prefixes on unsigned bytes, with a proper prefix ordered first. */
  lemma CompareIsLexicographic(x: seq<bv8>, y: seq<bv8>, slim: nat, olim: nat)
    ensures var xs := x[..if |x| < slim then |x| else slim];
            var ys := y[..if |y| < olim then |y| else olim];
            var r := Compare(x, y, slim, olim);
      && r in {-1, 0, 1}
      && (r == -1 <==> LexLess(xs, ys))
      && (r == 1 <==> LexLess(ys, xs))
      && (r == 0 <==> xs == ys)
  {
    var m := if |x| < slim then |x| else slim;
    var n := if |y| < olim then |y| else olim;
    var len := if m < n then m else n;
    var xs, ys := x[..m], y[..n];
    var k := FirstDiff(x, y, len);
    CompareAtFirstDiff(x, y, slim, olim);
    assert xs[..k] == x[..k] && ys[..k] == y[..k];
    assert k < len ==> xs[k] == x[k] && ys[k] == y[k];
    OrderedAt(xs, ys, k, Compare(x, y, slim, olim));
  }

  /** The clamped comparison is decided at the first difference of the
      shorter clamped length, or by the clamped lengths when there is none. */
  lemma CompareAtFirstDiff(x: seq<bv8>, y: seq<bv8>, slim: nat, olim: nat)
    ensures var m := if |x| < slim then |x| else slim;
            var n := if |y| < olim then |y| else olim;
            var k := FirstDiff(x, y, if m < n then m else n);
      Compare(x, y, slim, olim) ==
        if k == m && k == n then 0
        else if k == m then -1
        else if k == n then 1
        else if x[k] < y[k] then -1 else 1
  {
    var m := if |x| < slim then |x| else slim;
    var n := if |y| < olim then |y| else olim;
    var len := if m < n then m else n;
    var k := FirstDiff(x, y, len);
    MemcmpAtFirstDiff(x, y, len);
    assert Memcmp(x, y, len) == 0 <==> k == len;
  }

  /** Given the first difference `k` of two byte strings, the result of
      the comparison built on it agrees with `LexLess` both ways. */
  lemma OrderedAt(xs: seq<bv8>, ys: seq<bv8>, k: nat, r: int)
    requires k <= |xs| && k <= |ys| && xs[..k] == ys[..k]
    requires k < |xs| && k < |ys| ==> xs[k] != ys[k]
    requires r == if k == |xs| && k == |ys| then 0
                 else if k == |xs| then -1
                 else if k == |ys| then 1
                 else if xs[k] < ys[k] then -1 else 1
    ensures && r in {-1, 0, 1}
            && (r == -1 <==> LexLess(xs, ys))
            && (r == 1 <==> LexLess(ys, xs))
            && (r == 0 <==> xs == ys)
  {
    if k == |xs| && k == |ys| {
      assert xs == xs[..k] && ys == ys[..k];
      LexLessIrreflexive(xs);
    } else if k == |xs| {
      assert xs == ys[..|xs|];
      LexLessAtPrefix(xs, ys);
    } else if k == |ys| {
      assert ys == xs[..|ys|];
      LexLessAtPrefix(ys, xs);
    } else if xs[k] < ys[k] {
      LexLessAtDiff(xs, ys, k);
    } else {
      LexLessAtDiff(ys, xs, k);
    }
  }

  /** A proper prefix is strictly below. */
  lemma LexLessAtPrefix(xs: seq<bv8>, ys: seq<bv8>)
    requires |xs| < |ys| && xs == ys[..|xs|]
    ensures LexLess(xs, ys) && !LexLess(ys, xs) && xs != ys
  {
    LexLessAsymmetric(xs, ys);
  }

  /** A smaller byte at the first difference is strictly below. */
  lemma LexLessAtDiff(xs: seq<bv8>, ys: seq<bv8>, k: nat)
    requires k < |xs| && k < |ys| && xs[..k] == ys[..k] && xs[k] < ys[k]
    ensures LexLess(xs, ys) && !LexLess(ys, xs) && xs != ys
  {
    LexLessAsymmetric(xs, ys);
  }

  /** Comparing a buffer with itself under the same limit gives 0. */
  lemma CompareReflexive(x: seq<bv8>, lim: nat)
    ensures Compare(x, x, lim, lim) == 0
  {
    CompareIsLexicographic(x, x, lim, lim);
  }

  /** Swapping the buffers and their limits negates the comparison. */
  lemma CompareAntisymmetric(x: seq<bv8>, y: seq<bv8>, slim: nat, olim: nat)
    ensures Compare(x, y, slim, olim) == -Compare(y, x, olim, slim)
  {
    CompareIsLexicographic(x, y, slim, olim);
    CompareIsLexicographic(y, x, olim, slim);
  }
}

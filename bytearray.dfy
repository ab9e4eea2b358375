/** The ByteArray object: a buffer of bytes whose length is fixed when it is
    created, with the bounds-checked primitives the String class is built
    on. A primitive that raises an exception returns an error outcome
    instead, and then leaves the buffer as it was. */
module ByteArrays {
  import opened Results
  import opened Octets
  import opened ByteSeqs
  import opened Utf8

  class ByteArray {
    /** The body. The array itself never changes, so neither does the size. */
    const bytes: array<bv8>
    /** Set by `create_pinned`: the collector must not move this body. */
    const pinned: bool

    /** `create`: `n` bytes, all zero. */
    constructor Create(n: nat)
      ensures fresh(bytes) && bytes.Length == n && !pinned
      ensures forall i :: 0 <= i < n ==> bytes[i] == 0
    {
      bytes := new bv8[n](_ => 0);
      pinned := false;
    }

    /** `create_pinned`: as `create`, with the body pinned. */
    constructor CreatePinned(n: nat)
      ensures fresh(bytes) && bytes.Length == n && pinned
      ensures forall i :: 0 <= i < n ==> bytes[i] == 0
    {
      bytes := new bv8[n](_ => 0);
      pinned := true;
    }

    /** `create_dirty`: `n` bytes whose contents are not promised; the
        caller fills them. */
    constructor CreateDirty(n: nat)
      ensures fresh(bytes) && bytes.Length == n && !pinned
    {
      bytes := new bv8[n];
      pinned := false;
    }

    /** `allocate`: a negative size is an argument error, anything else is
        `create`. */
    static method Allocate(n: int) returns (r: Outcome<ByteArray>)
      ensures r.Ok? || r.ArgumentError?
      ensures r.ArgumentError? <==> n < 0
      ensures r.Ok? ==> && fresh(r.value.bytes) && r.value.bytes.Length == n && !r.value.pinned
                        && forall i :: 0 <= i < n ==> r.value.bytes[i] == 0
    {
      if n < 0 {
        return ArgumentError;
      }
      var ba := new ByteArray.Create(n);
      return Ok(ba);
    }

    /** `size`: the byte count given at creation; `bytes` is a constant
        array, so no primitive changes it. */
    function Size(): (n: nat)
      ensures n == bytes.Length
    {
      bytes.Length
    }

    /** `to_chars`: a copy of the first `sz` bytes with a terminating zero. */
    function ToChars(sz: int): (r: Outcome<seq<bv8>>)
      reads bytes
      ensures r.BoundsError? <==> sz < 0 || sz > Size()
      ensures r.BoundsError? ==> r.reason == if sz < 0 then SizeNegative else SizeBeyondEnd
      ensures !r.ArgumentError?
      ensures r.Ok? ==> && |r.value| == sz + 1 && r.value[sz] == 0
                        && forall i :: 0 <= i < sz ==> r.value[i] == bytes[i]
    {
      if sz < 0 then BoundsError(SizeNegative)
      else if sz > Size() then BoundsError(SizeBeyondEnd)
      else Ok(bytes[..sz] + [0])
    }

    /** `get_byte`: the byte at `idx` as an unsigned value. */
    function GetByte(idx: int): (r: Outcome<int>)
      reads bytes
      ensures r.BoundsError? <==> idx < 0 || idx >= Size()
      ensures r.BoundsError? ==> r.reason == IndexOutOfBounds
      ensures !r.ArgumentError?
      ensures r.Ok? ==> 0 <= r.value < 256 && r.value == bytes[idx] as int
    {
      if idx < 0 || idx >= Size() then BoundsError(IndexOutOfBounds)
      else Ok(bytes[idx] as int)
    }

    /** `set_byte`: store `value` modulo 256 (the conversion to an unsigned
        byte) at `idx` and return the stored byte; no other byte changes. */
    method SetByte(idx: int, value: int) returns (r: Outcome<int>)
      modifies bytes
      ensures r.BoundsError? <==> idx < 0 || idx >= Size()
      ensures r.BoundsError? ==> r.reason == IndexOutOfBounds && bytes[..] == old(bytes[..])
      ensures !r.ArgumentError?
      ensures r.Ok? ==> && r.value == value % 256
                        && bytes[..] == old(bytes[..])[idx := (value % 256) as bv8]
      ensures r.Ok? ==> GetByte(idx) == Ok(value % 256)
      ensures forall i :: 0 <= i < Size() && i != idx ==> GetByte(i) == old(GetByte(i))
    {
      if idx < 0 || idx >= Size() {
        return BoundsError(IndexOutOfBounds);
      }
      var b := (value % 256) as bv8;
      ByteOf(value % 256);
      bytes[idx] := b;
      return Ok(b as int);
    }

    /** `move_bytes`: copy `cnt` bytes from `src` to `dst` with memmove
        semantics and return `cnt`; the checks come in the source's order. */
    method MoveBytes(src: int, cnt: int, dst: int) returns (r: Outcome<int>)
      modifies bytes
      ensures !r.ArgumentError?
      ensures r.BoundsError? <==>
        src < 0 || dst < 0 || cnt < 0 || dst + cnt > Size() || src + cnt > Size()
      ensures r.BoundsError? ==>
        && r.reason == (if src < 0 then StartNegative
                        else if dst < 0 then DestNegative
                        else if cnt < 0 then CountNegative
                        else if dst + cnt > Size() then MoveBeyondEnd
                        else MoveBeyondAvailable)
        && bytes[..] == old(bytes[..])
      ensures r.Ok? ==> r.value == cnt && bytes[..] == Moved(old(bytes[..]), src, cnt, dst)
    {
      if src < 0 {
        return BoundsError(StartNegative);
      } else if dst < 0 {
        return BoundsError(DestNegative);
      } else if cnt < 0 {
        return BoundsError(CountNegative);
      } else if dst + cnt > Size() {
        return BoundsError(MoveBeyondEnd);
      } else if src + cnt > Size() {
        return BoundsError(MoveBeyondAvailable);
      }
      ghost var s := bytes[..];
      // memmove: every destination byte reads the source range as it was
      forall k | dst <= k < dst + cnt {
        bytes[k] := bytes[src + (k - dst)];
      }
      forall k | 0 <= k < |s| ensures bytes[k] == Moved(s, src, cnt, dst)[k] {
        MovedAt(s, src, cnt, dst, k);
      }
      return Ok(cnt);
    }

    /** `fetch_bytes`: a fresh buffer of `cnt + 1` bytes holding the `cnt`
        bytes at `src` and a terminating zero; the receiver is not changed. */
    method FetchBytes(src: int, cnt: int) returns (r: Outcome<ByteArray>)
      ensures !r.ArgumentError?
      ensures r.BoundsError? <==> src < 0 || cnt < 0 || src + cnt > Size()
      ensures r.BoundsError? ==>
        r.reason == (if src < 0 then StartNegative
                     else if cnt < 0 then CountNegative
                     else FetchBeyondAvailable)
      ensures r.Ok? ==> && fresh(r.value.bytes) && !r.value.pinned
                        && r.value.bytes[..] == bytes[src..src + cnt] + [0]
    {
      if src < 0 {
        return BoundsError(StartNegative);
      } else if cnt < 0 {
        return BoundsError(CountNegative);
      } else if src + cnt > Size() {
        return BoundsError(FetchBeyondAvailable);
      }
      var ba := new ByteArray.CreateDirty(cnt + 1);
      forall k | 0 <= k < cnt {
        ba.bytes[k] := bytes[src + k];
      }
      ba.bytes[cnt] := 0;
      assert ba.bytes[..] == bytes[src..src + cnt] + [0];
      return Ok(ba);
    }

    /** `prepend`: a fresh zeroed buffer of the combined size, filled with
        `other` and then this buffer's bytes; the receiver is not changed. */
    method Prepend(other: seq<bv8>) returns (ba: ByteArray)
      ensures fresh(ba.bytes) && !ba.pinned
      ensures ba.bytes[..] == other + bytes[..]
    {
      ba := new ByteArray.Create(Size() + |other|);
      forall k | 0 <= k < |other| {
        ba.bytes[k] := other[k];
      }
      forall k | 0 <= k < Size() {
        ba.bytes[|other| + k] := bytes[k];
      }
      assert ba.bytes[..] == other + bytes[..];
    }

    /** `reverse`: reverse the bytes from `start` up to the exclusive end
        `total` in place by swapping from both ends, unless `total <= 0`,
        `start < 0` or `start >= size`; always returns the receiver. The
        end is never checked, so it must be within the buffer whenever the
        guard lets it through. */
    method Reverse(start: int, total: int) returns (r: ByteArray)
      requires total <= 0 || start < 0 || start >= Size() || total <= Size()
      modifies bytes
      ensures r == this
      ensures bytes[..] == ReverseSpec(old(bytes[..]), start, total)
    {
      if total <= 0 || start < 0 || start >= Size() {
        return this;
      }
      var i, j := start, total - 1;
      while i < j
        invariant start <= i && 0 <= j + 1 <= total && i + j == start + total - 1
        invariant ReverseRange(bytes[..], i, j + 1) == ReverseRange(old(bytes[..]), start, total)
        decreases j - i
      {
        ghost var s := bytes[..];
        var tmp := bytes[i];
        bytes[i] := bytes[j];
        bytes[j] := tmp;
        assert bytes[..] == s[i := s[j]][j := s[i]];
        i, j := i + 1, j - 1;
      }
      return this;
    }

    /** `compare_bytes`: order the first `a` bytes of this buffer against the
        first `b` bytes of `other`, each limit clamped to its buffer, on
        unsigned bytes with a proper prefix first; negative limits fail. */
    function CompareBytes(other: ByteArray, a: int, b: int): (r: Outcome<int>)
      reads bytes, other.bytes
      ensures !r.ArgumentError?
      ensures r.BoundsError? <==> a < 0 || b < 0
      ensures r.BoundsError? ==> r.reason == if a < 0 then SelfLimitNegative else OtherLimitNegative
      ensures r.Ok? ==>
        var xs := bytes[..if Size() < a then Size() else a];
        var ys := other.bytes[..if other.Size() < b then other.Size() else b];
        && r.value in {-1, 0, 1}
        && (r.value == -1 <==> LexLess(xs, ys))
        && (r.value == 1 <==> LexLess(ys, xs))
        && (r.value == 0 <==> xs == ys)
    {
      if a < 0 then BoundsError(SelfLimitNegative)
      else if b < 0 then BoundsError(OtherLimitNegative)
      else
        CompareIsLexicographic(bytes[..], other.bytes[..], a, b);
        Ok(Compare(bytes[..], other.bytes[..], a, b))
    }

    /** `locate`: scan the start offsets from `start` below
        `min(max, size) - (len - 1)` for the first one where `pattern`
        occurs and return the offset just past that match. An empty pattern
        gives `start` back, `max == 0` gives nothing. */
    method Locate(pattern: seq<bv8>, start: int, max: int) returns (r: Option<int>)
      requires LocateDefined(Size(), |pattern|, start, max)
      ensures r == LocateSpec(bytes[..], pattern, start, max)
    {
      if |pattern| == 0 {
        return Some(start);
      }
      if max == 0 {
        return None;
      }
      var hi := if max > Size() then Size() else max;
      hi := hi - (|pattern| - 1);
      assert hi == LocateLimit(Size(), |pattern|, max);
      ghost var s := bytes[..];
      var i := start;
      while i < hi
        invariant start <= i && (0 <= i || hi <= i)
        invariant FirstMatch(s, pattern, i, hi) == FirstMatch(s, pattern, start, hi)
        decreases hi - i
      {
        if bytes[i] == pattern[0] {
          var j := 1;
          while j < |pattern| && bytes[i + j] == pattern[j]
            invariant 1 <= j <= |pattern|
            invariant forall k :: 0 <= k < j ==> s[i + k] == pattern[k]
            decreases |pattern| - j
          {
            j := j + 1;
          }
          if j == |pattern| {
            return Some(i + |pattern|);
          }
          assert s[i + j] != pattern[j];
        } else {
          assert s[i + 0] != pattern[0];
        }
        i := i + 1;
      }
      return None;
    }

    /** `get_utf8_char`: decode one character at offset `o`, giving its value
        and byte length; nothing at or past the end or when decoding fails.
        A negative offset is never checked, so it is excluded. */
    method GetUtf8Char(o: int) returns (r: Option<(int, int)>)
      requires o >= 0
      ensures r == Utf8CharAt(bytes[..], o)
      ensures o >= Size() ==> r.None?
      ensures o < Size() && bytes[o] < 0x80 ==> r == Some((bytes[o] as int, 1))
      ensures o < Size() && (0x80 <= bytes[o] < 0xC0 || bytes[o] >= 0xFE) ==> r.None?
      ensures r.Some? ==> 0 <= r.value.0 < 0x80000000 && 1 <= r.value.1 <= Size() - o
    {
      if o >= Size() {
        return None;
      }
      var ok, uv, len := Utf8ToUv(bytes[o..]);
      DecodedLength(bytes[o..]);
      if ok {
        r := Some((uv, len));
      } else {
        r := None;
      }
    }
  }
}

/** The single-character UTF-8 decoder of the ByteArray primitives: the
    original 1 to 6 byte scheme of section 2 of RFC 2279 with rejection of
    overlong forms, and none of the restrictions of RFC 3629 (no 4-byte cap,
    no surrogate check). */
module Utf8 {
  import opened Results
  import opened Octets

  /** utf8_limits: `Limits[n - 1]` is the least value an `n`-byte sequence may
      carry (a smaller one is overlong); `Limits[n]` bounds what `n` bytes can
      carry, so `Limits[6]` bounds every decoded value. */
  const Limits: seq<int> := [0x0, 0x80, 0x800, 0x10000, 0x200000, 0x4000000, 0x80000000]

  /** `LeadMarks[n - 1]` is the fixed high part of the lead byte of an
      `n`-byte sequence; `LeadRoom[n - 1]` is how many payload values the
      rest of that lead byte can hold. */
  const LeadMarks: seq<int> := [0x00, 0xC0, 0xE0, 0xF0, 0xF8, 0xFC]
  const LeadRoom: seq<int> := [0x80, 0x20, 0x10, 0x08, 0x04, 0x02]

  /** Final return value, `*uv` and `*lenp` of `utf8_to_uv`. */
  datatype Decoded = Decoded(ok: bool, uv: int, len: int)

  /** `room * 64^j`, written so that every step multiplies by a constant. */
  function Scaled(room: nat, j: nat): nat {
    if j == 0 then room else 64 * Scaled(room, j - 1)
  }

  /** Byte of the form 10xxxxxx. */
  predicate IsContinuation(b: bv8) {
    0x80 <= b as int < 0xC0
  }

  /** Sequence length announced by a lead byte `c >= 0xC0`, or 0 for the
      bytes 0xFE and 0xFF, which announce nothing. */
  function LeadLength(c: int): nat {
    if c < 0xE0 then 2
    else if c < 0xF0 then 3
    else if c < 0xF8 then 4
    else if c < 0xFC then 5
    else if c < 0xFE then 6
    else 0
  }

  /** Value accumulated from the lead payload `lead` and the low six bits of
      the bytes `s[1..k]`. */
  function Acc(s: seq<bv8>, lead: int, k: nat): int
    requires 1 <= k <= |s|
  {
    if k == 1 then lead else Acc(s, lead, k - 1) * 64 + (s[k - 1] as int) % 64
  }

  /** Least `i` in `[j, n)` with `s[i]` not a continuation byte, else `n`. */
  function FirstBad(s: seq<bv8>, j: nat, n: nat): (r: nat)
    requires 1 <= j <= n <= |s|
    ensures j <= r <= n
    decreases n - j
  {
    if j == n then n
    else if !IsContinuation(s[j]) then j
    else FirstBad(s, j + 1, n)
  }

  /** What `utf8_to_uv` leaves behind when it decodes from the first byte of
      `s`, `|s|` being the number of bytes left in the buffer:
      - a byte below 0x80 is itself, one byte long;
      - a lead byte 10xxxxxx, 0xFE or 0xFF fails with length 1;
      - a sequence longer than what is left fails with the length untouched;
      - a bad continuation byte SUCCEEDS, with the value gathered so far and
        the number of bytes before the bad one, and no overlong check (the
        source returns -1 from a function returning bool, which is true);
      - a complete sequence succeeds unless it is overlong. */
  function Utf8ToUvSpec(s: seq<bv8>): Decoded
    requires |s| >= 1
  {
    var c := s[0] as int;
    if c < 0x80 then Decoded(true, c, 1)
    else if c < 0xC0 then Decoded(false, c, 1)
    else
      var n := LeadLength(c);
      if n == 0 then Decoded(false, c, 1)
      else
        var lead := c - LeadMarks[n - 1];
        if n > |s| then Decoded(false, lead, |s|)
        else ContinuationSpec(s, n, lead)
  }

  /** The part of the decoding after the lead byte of an `n`-byte sequence
      with payload `lead`: gather the continuation bytes, stop at a bad one
      (that counts as success), refuse the overlong forms. */
  function ContinuationSpec(s: seq<bv8>, n: nat, lead: int): Decoded
    requires 1 <= n <= 6 && n <= |s|
  {
    var k := FirstBad(s, 1, n);
    if k < n then Decoded(true, Acc(s, lead, k), k)
    else
      var v := Acc(s, lead, n);
      Decoded(v >= Limits[n - 1], v, n)
  }

  /** `get_utf8_char` on the buffer `s` at offset `o`: nothing when `o` is
      at or past the end, nothing when decoding fails (the two cannot be told
      apart), otherwise the value and the number of bytes it took. */
  function Utf8CharAt(s: seq<bv8>, o: int): Option<(int, int)>
    requires o >= 0
  {
    if o >= |s| then None
    else
      var d := Utf8ToUvSpec(s[o..]);
      if d.ok then Some((d.uv, d.len)) else None
  }

  // ---------------------------------------------------------------------------
  // Arithmetic facts the decoder and the encoder rest on

  /** A value gathered from a lead payload below `room` and `k - 1` further
      six-bit groups is below `room * 64^(k-1)`. */
  lemma {:induction false} AccBound(s: seq<bv8>, lead: int, k: nat, room: nat)
    requires 1 <= k <= |s| && 0 <= lead < room
    ensures 0 <= Acc(s, lead, k) < Scaled(room, k - 1)
  {
    if k > 1 {
      AccBound(s, lead, k - 1, room);
    }
  }

  /** Before the last continuation byte of a sequence of at most six bytes
      is shifted in, the value is below 2^25, so `uv << 6` cannot wrap a
      32-bit word. */
  lemma AccBeforeShift(s: seq<bv8>, lead: int, n: int, p: int)
    requires 2 <= n <= 6 && 1 <= p < n && p <= |s| && 0 <= lead < LeadRoom[n - 1]
    ensures 0 <= Acc(s, lead, p) < 0x2000000
  {
    AccBound(s, lead, p, LeadRoom[n - 1]);
    ScaledBelowShift(n, p);
  }

  lemma ScaledBelowShift(n: int, p: int)
    requires 2 <= n <= 6 && 1 <= p < n
    ensures Scaled(LeadRoom[n - 1], p - 1) <= 0x2000000
  {
    if p == 1 {
    } else if p == 2 {
    } else if p == 3 {
    } else if p == 4 {
    } else {
      assert Scaled(LeadRoom[n - 1], 4) == 0x2000000;
    }
  }

  /** A complete `n`-byte sequence carries a value below `Limits[n]`. */
  lemma AccBelowLimit(s: seq<bv8>, lead: int, n: int)
    requires 1 <= n <= 6 && n <= |s| && 0 <= lead < LeadRoom[n - 1]
    ensures 0 <= Acc(s, lead, n) < Limits[n]
  {
    AccBound(s, lead, n, LeadRoom[n - 1]);
    RoomIsNextLimit(n);
  }

  /** The room left by the lead byte of an `n`-byte sequence, times 64 per
      continuation byte, is exactly the next entry of the limits table. */
  lemma RoomIsNextLimit(n: int)
    requires 1 <= n <= 6
    ensures Scaled(LeadRoom[n - 1], n - 1) == Limits[n]
  {
    if n == 1 {
    } else if n == 2 {
    } else if n == 3 {
    } else if n == 4 {
    } else if n == 5 {
      assert Scaled(LeadRoom[4], 4) == 0x4000000;
    } else {
      assert Scaled(LeadRoom[5], 5) == 0x80000000;
    }
  }

  /** `cp` shifted right by `6 * j` bits. */
  function Shr6(cp: nat, j: nat): nat {
    if j == 0 then cp else Shr6(cp, j - 1) / 64
  }

  lemma {:induction false} ScaledShift(room: nat, j: nat)
    ensures Scaled(room, j + 1) == Scaled(64 * room, j)
  {
    if j > 0 {
      ScaledShift(room, j - 1);
    }
  }

  /** A value below `room * 64^j` leaves less than `room` after dropping `j`
      six-bit groups. */
  lemma {:induction false} Shr6Below(cp: nat, j: nat, room: nat)
    requires cp < Scaled(room, j)
    ensures Shr6(cp, j) < room
  {
    if j > 0 {
      ScaledShift(room, j - 1);
      Shr6Below(cp, j - 1, 64 * room);
    }
  }

  /** The bit tests `utf8_to_uv` makes on a lead byte agree with the
      integer ranges of the specification, and its masks drop the lead mark. */
  lemma LeadBits(c: bv8)
    ensures (c & 0x80 == 0) <==> c < 0x80
    ensures c & 0x80 != 0 ==> ((c & 0x40 == 0) <==> c < 0xC0)
    ensures 0xC0 <= c && c & 0x20 == 0 ==>
      LeadLength(c as int) == 2 && (c & 0x1f) as int == c as int - LeadMarks[1]
    ensures 0xC0 <= c && c & 0x20 != 0 && c & 0x10 == 0 ==>
      LeadLength(c as int) == 3 && (c & 0x0f) as int == c as int - LeadMarks[2]
    ensures 0xC0 <= c && c & 0x30 == 0x30 && c & 0x08 == 0 ==>
      LeadLength(c as int) == 4 && (c & 0x07) as int == c as int - LeadMarks[3]
    ensures 0xC0 <= c && c & 0x38 == 0x38 && c & 0x04 == 0 ==>
      LeadLength(c as int) == 5 && (c & 0x03) as int == c as int - LeadMarks[4]
    ensures 0xC0 <= c && c & 0x3c == 0x3c && c & 0x02 == 0 ==>
      LeadLength(c as int) == 6 && (c & 0x01) as int == c as int - LeadMarks[5]
    ensures 0xC0 <= c && c & 0x3e == 0x3e ==> LeadLength(c as int) == 0
  {
  }

  /** The continuation test and the six-bit mask of `utf8_to_uv`. */
  lemma ContinuationBits(c: bv8)
    ensures (c & 0xc0 == 0x80) <==> IsContinuation(c)
    ensures (c & 0x3f) as int == (c as int) % 64
  {
  }

  // ---------------------------------------------------------------------------
  // The decoding method

  /** `utf8_to_uv(p, &uv, &len)` with `p` at the first byte of `s` and `len`
      initially `|s|`, the number of bytes left in the buffer: the lead byte
      is classified here, the continuation bytes are read by
      ReadContinuations. */
  method Utf8ToUv(s: seq<bv8>) returns (ok: bool, uv: int, len: int)
    requires |s| >= 1
    ensures Decoded(ok, uv, len) == Utf8ToUvSpec(s)
    ensures ok ==> 0 <= uv < Limits[6]
  {
    var c := s[0];
    uv := c as int;
    len := |s|;
    if c & 0x80 == 0 {
      len := 1;
      return true, uv, len;
    }
    if c & 0x40 == 0 {
      len := 1;
      return false, uv, len;
    }
    LeadBits(c);
    var n: int;
    if c & 0x20 == 0 { n := 2; uv := (c & 0x1f) as int; }
    else if c & 0x10 == 0 { n := 3; uv := (c & 0x0f) as int; }
    else if c & 0x08 == 0 { n := 4; uv := (c & 0x07) as int; }
    else if c & 0x04 == 0 { n := 5; uv := (c & 0x03) as int; }
    else if c & 0x02 == 0 { n := 6; uv := (c & 0x01) as int; }
    else {
      len := 1;
      return false, uv, len;
    }
    assert n == LeadLength(s[0] as int);
    assert uv == s[0] as int - LeadMarks[n - 1] && 0 <= uv < LeadRoom[n - 1];
    if n > len {
      return false, uv, len;
    }
    ok, uv, len := ReadContinuations(s, n, uv);
  }

  /** The rest of `utf8_to_uv` once the lead byte of `s` has announced `n`
      bytes and left the payload `lead` in `*uv`: `*lenp = n--`, then the
      `while(n--)` loop over the continuation bytes, then the overlong check
      against `utf8_limits`.  The source's 32-bit word `uv` is an `int` here:
      before every six-bit shift the value is shown to be below 2^26, so
      `uv << 6 | c` cannot wrap and equals `uv * 64 + c`. */
  method ReadContinuations(s: seq<bv8>, n: int, lead: int) returns (ok: bool, uv: int, len: int)
    requires 2 <= n <= 6 && n <= |s| && 0 <= lead < LeadRoom[n - 1]
    ensures Decoded(ok, uv, len) == ContinuationSpec(s, n, lead)
    ensures ok ==> 0 <= uv < Limits[6]
  {
    var m := n;
    var p := 1;
    uv := lead;
    len := m;
    m := m - 1;
    if m != 0 {
      while m != 0
        invariant 1 <= p <= n && m == n - p && len == n
        invariant FirstBad(s, p, n) == FirstBad(s, 1, n)
        invariant uv == Acc(s, lead, p)
      {
        m := m - 1;
        var c := s[p];
        p := p + 1;
        ContinuationBits(c);
        AccBeforeShift(s, lead, n, p - 1);
        if c & 0xc0 != 0x80 {
          len := len - (m + 1);
          return true, uv, len;
        }
        assert 0 <= uv < 0x4000000;
        uv := uv * 64 + (c & 0x3f) as int;
      }
    }
    m := len - 1;
    ok := uv >= Limits[m];
    AccBelowLimit(s, lead, n);
  }

  // ---------------------------------------------------------------------------
  // Properties of the decoder

  /** A complete, valid sequence carries a value of its own length band:
      at least its entry of the limits table and below the next one. */
  lemma DecodedInBand(s: seq<bv8>)
    requires |s| >= 1 && s[0] >= 0xC0 && LeadLength(s[0] as int) != 0
    requires LeadLength(s[0] as int) <= |s|
    requires FirstBad(s, 1, LeadLength(s[0] as int)) == LeadLength(s[0] as int)
    ensures var d := Utf8ToUvSpec(s);
      && d.len == LeadLength(s[0] as int)
      && (d.ok <==> Limits[d.len - 1] <= d.uv)
      && d.uv < Limits[d.len]
  {
    var c := s[0] as int;
    var n := LeadLength(c);
    LeadPayloadFits(c);
    var lead := c - LeadMarks[n - 1];
    ContinuationInBand(s, n, lead);
    assert Utf8ToUvSpec(s) == ContinuationSpec(s, n, lead);
  }

  /** The continuation part of a complete sequence: its full length, and a
      value below the next entry of the limits table. */
  lemma ContinuationInBand(s: seq<bv8>, n: nat, lead: int)
    requires 1 <= n <= 6 && n <= |s| && 0 <= lead < LeadRoom[n - 1]
    requires FirstBad(s, 1, n) == n
    ensures var d := ContinuationSpec(s, n, lead);
      && d.len == n
      && (d.ok <==> Limits[n - 1] <= d.uv)
      && d.uv < Limits[n]
  {
    AccBelowLimit(s, lead, n);
  }

  /** Whatever the outcome, the reported length is at least one byte and
      never more than what is left in the buffer. */
  lemma DecodedLength(s: seq<bv8>)
    requires |s| >= 1
    ensures 1 <= Utf8ToUvSpec(s).len <= |s|
  {
  }

  /** A lead byte that announces a length leaves a payload that fits the
      room of that length. */
  lemma LeadPayloadFits(c: int)
    requires 0xC0 <= c < 0x100 && LeadLength(c) != 0
    ensures 0 <= c - LeadMarks[LeadLength(c) - 1] < LeadRoom[LeadLength(c) - 1]
  {
  }

  /** Shortest encoding length of a value below 2^31. */
  function EncodedLength(cp: nat): (n: nat)
    requires cp < 0x80000000
    ensures 1 <= n <= 6 && Limits[n - 1] <= cp < Limits[n]
  {
    if cp < 0x80 then 1
    else if cp < 0x800 then 2
    else if cp < 0x10000 then 3
    else if cp < 0x200000 then 4
    else if cp < 0x4000000 then 5
    else 6
  }

  /** Continuation byte `i` (counted from 0) of the `n`-byte encoding of `cp`. */
  function ContinuationByte(cp: nat, n: nat, i: nat): (b: bv8)
    requires i + 2 <= n
    ensures IsContinuation(b) && (b as int) % 64 == Shr6(cp, n - 2 - i) % 64
  {
    var d := Shr6(cp, n - 2 - i) % 64;
    ByteOf(0x80 + d);
    assert (0x80 + d) % 64 == d;
    (0x80 + d) as bv8
  }

  /** The shortest RFC 2279 encoding of `cp`: a lead byte carrying the high
      bits and six bits per continuation byte. */
  function Encode(cp: nat): (r: seq<bv8>)
    requires cp < 0x80000000
    ensures |r| == EncodedLength(cp)
  {
    var n := EncodedLength(cp);
    RoomIsNextLimit(n);
    Shr6Below(cp, n - 1, LeadRoom[n - 1]);
    [(LeadMarks[n - 1] + Shr6(cp, n - 1)) as bv8]
      + seq(n - 1, i requires 0 <= i < n - 1 => ContinuationByte(cp, n, i))
  }

  lemma {:induction false} FirstBadNone(s: seq<bv8>, j: nat, n: nat)
    requires 1 <= j <= n <= |s|
    requires forall i :: j <= i < n ==> IsContinuation(s[i])
    ensures FirstBad(s, j, n) == n
    decreases n - j
  {
    if j < n {
      FirstBadNone(s, j + 1, n);
    }
  }

  /** Gathering `k` bytes of the encoding of `cp` gives the top bits of `cp`. */
  lemma {:induction false} AccOfEncoding(cp: nat, s: seq<bv8>, n: nat, k: nat)
    requires 1 <= k <= n <= |s|
    requires forall i {:trigger s[i]} :: 1 <= i < n ==> (s[i] as int) % 64 == Shr6(cp, n - 1 - i) % 64
    ensures Acc(s, Shr6(cp, n - 1), k) == Shr6(cp, n - k)
  {
    if k > 1 {
      AccOfEncoding(cp, s, n, k - 1);
      assert (s[k - 1] as int) % 64 == Shr6(cp, n - k) % 64;
    }
  }

  /** The lead byte of the encoding of `cp` announces its length and
      carries the top bits of `cp`. */
  lemma EncodedLead(cp: nat)
    requires cp < 0x80000000
    ensures var n := EncodedLength(cp); var c := Encode(cp)[0] as int;
      && Shr6(cp, n - 1) < LeadRoom[n - 1]
      && c == LeadMarks[n - 1] + Shr6(cp, n - 1)
      && (n == 1 ==> c == cp)
      && (n > 1 ==> 0xC0 <= c && LeadLength(c) == n)
  {
    var n := EncodedLength(cp);
    RoomIsNextLimit(n);
    Shr6Below(cp, n - 1, LeadRoom[n - 1]);
    var q := Shr6(cp, n - 1);
    LeadByteOf(n, q);
    assert Encode(cp)[0] == (LeadMarks[n - 1] + q) as bv8;
  }

  /** A lead mark plus a payload that fits is a byte that announces its
      length. */
  lemma LeadByteOf(n: nat, q: int)
    requires 1 <= n <= 6 && 0 <= q < LeadRoom[n - 1]
    ensures var x := LeadMarks[n - 1] + q;
      && 0 <= x < 256 && ((x as bv8) as int) == x
      && (n > 1 ==> 0xC0 <= x && LeadLength(x) == n)
  {
    ByteOf(LeadMarks[n - 1] + q);
  }


  /** Every byte after the lead byte of the encoding of `cp` is a
      continuation byte carrying the next six bits of `cp`. */
  lemma EncodedContinuations(cp: nat, s: seq<bv8>)
    requires cp < 0x80000000 && Encode(cp) <= s
    ensures var n := EncodedLength(cp);
      forall i {:trigger s[i]} :: 1 <= i < n ==>
        IsContinuation(s[i]) && (s[i] as int) % 64 == Shr6(cp, n - 1 - i) % 64
  {
    var n := EncodedLength(cp);
    var e := Encode(cp);
    forall i | 1 <= i < n
      ensures IsContinuation(s[i]) && (s[i] as int) % 64 == Shr6(cp, n - 1 - i) % 64
    {
      assert s[i] == e[i] == ContinuationByte(cp, n, i - 1);
    }
  }

  /** A multi-byte sequence whose lead byte and continuation bytes carry
      the six-bit groups of `cp`, with `cp` not overlong, decodes to `cp`. */
  lemma DecodeGroups(s: seq<bv8>, n: nat, cp: nat)
    requires 2 <= n <= 6 && n <= |s| && Limits[n - 1] <= cp
    requires s[0] as int >= 0xC0 && LeadLength(s[0] as int) == n
    requires s[0] as int - LeadMarks[n - 1] == Shr6(cp, n - 1)
    requires forall i {:trigger s[i]} :: 1 <= i < n ==>
      IsContinuation(s[i]) && (s[i] as int) % 64 == Shr6(cp, n - 1 - i) % 64
    ensures Utf8ToUvSpec(s) == Decoded(true, cp, n)
  {
    FirstBadNone(s, 1, n);
    AccOfEncoding(cp, s, n, n);
  }

  /** Round trip: decoding the shortest encoding of any value below 2^31,
      whatever bytes follow it, gives the value back with the encoding's
      length. */
  lemma DecodeEncode(cp: nat, rest: seq<bv8>)
    requires cp < 0x80000000
    ensures Utf8ToUvSpec(Encode(cp) + rest) == Decoded(true, cp, |Encode(cp)|)
  {
    var n := EncodedLength(cp);
    var s := Encode(cp) + rest;
    EncodedLead(cp);
    assert s[0] == Encode(cp)[0];
    if n > 1 {
      EncodedContinuations(cp, s);
      DecodeGroups(s, n, cp);
    }
  }

  // ---------------------------------------------------------------------------
  // Worked cases

  /** U+00E9 encoded as C3 A9 decodes to 0xE9 in two bytes. */
  lemma DecodeEAcute()
    ensures Utf8ToUvSpec([0xC3, 0xA9]) == Decoded(true, 0xE9, 2)
  {
    var s: seq<bv8> := [0xC3, 0xA9];
    assert s[0] as int == 0xC3;
    assert LeadLength(0xC3) == 2;
    assert FirstBad(s, 1, 2) == 2;
    assert Acc(s, 3, 2) == 0xE9;
  }

  /** The overlong two-byte form C0 80 of NUL is refused. */
  lemma OverlongNulRefused()
    ensures !Utf8ToUvSpec([0xC0, 0x80]).ok
  {
    var s: seq<bv8> := [0xC0, 0x80];
    assert s[0] as int == 0xC0;
    assert FirstBad(s, 1, 2) == 2;
    assert Acc(s, 0, 2) == 0;
  }

  /** A bad continuation byte is reported as success: C3 41 gives the lead
      payload 3 after one byte. */
  lemma BadContinuationSucceeds()
    ensures Utf8ToUvSpec([0xC3, 0x41]) == Decoded(true, 0x03, 1)
  {
  }
}

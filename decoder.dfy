/**
  The CM6 decoder: characters are mapped back to digit codes through the
  256-entry table, digits are accumulated value by value (four bits from the
  first digit, five from each continuation digit), the sign bit of the first
  digit negates the value, and the result is un-differenced.
 */
module Cm6Decoder {
  import opened Cm6Alphabet
  import opened Differencing

  /** Every character of the stream is a 7-bit byte, so that the signed
      `char` loaded into `cin` indexes the table inside its bounds. */
  predicate SevenBit(s: seq<char>)
  {
    forall j :: 0 <= j < |s| ==> s[j] as int < 128
  }

  /** A stream s that can be read through the 256-entry table t. */
  predicate Readable(t: seq<int>, s: seq<char>)
  {
    |t| == 256 && SevenBit(s)
  }

  /** The code read for character ch: `table[cin] & CLBTMASK`. */
  function Code(t: seq<int>, ch: char): int
    requires |t| == 256 && ch as int < 128
  {
    t[ch as int] % 128
  }

  /** One decoded value, the index of the first character after it, and
      whether the input ended while its continuation bit was still set. */
  datatype Read = Read(value: int, next: nat, truncated: bool)

  /** The continuation loop, entered with the continuation bit set and the
      magnitude acc accumulated so far: the accumulator is shifted by five
      bits before the end of input is checked, then the next digit's five
      low bits are added. */
  function Tail(t: seq<int>, s: seq<char>, j: nat, acc: int): (r: Read)
    requires j <= |s| && Readable(t, s)
    decreases |s| - j
    ensures j <= r.next <= |s|
    ensures r.truncated ==> r.next == |s|
  {
    if j == |s| then Read(acc * 32, j, true)
    else
      var c := Code(t, s[j]);
      var acc' := acc * 32 + c % 32;
      if ContBit(c) then Tail(t, s, j + 1, acc') else Read(acc', j + 1, false)
  }

  /** The value whose first digit is at index j. */
  function ReadValue(t: seq<int>, s: seq<char>, j: nat): (r: Read)
    requires j < |s| && Readable(t, s)
    ensures j < r.next <= |s|
    ensures r.truncated ==> r.next == |s|
  {
    var c := Code(t, s[j]);
    var r := if ContBit(c) then Tail(t, s, j + 1, c % 16) else Read(c % 16, j + 1, false);
    if SignBit(c) then r.(value := -r.value) else r
  }

  /** The raw (still differenced) values and the truncation warning. */
  datatype Raw = Raw(values: seq<int>, truncated: bool)

  /** The decoding loop from character j with i values already produced:
      it stops at the end of input, or once nreq values are produced when
      nreq is positive. */
  function DecodeFrom(t: seq<int>, s: seq<char>, j: nat, i: nat, nreq: int): Raw
    requires j <= |s| && Readable(t, s)
    decreases |s| - j
  {
    if j == |s| || (nreq > 0 && i >= nreq) then Raw([], false)
    else
      var r := ReadValue(t, s, j);
      var rest := DecodeFrom(t, s, r.next, i + 1, nreq);
      Raw([r.value] + rest.values, r.truncated || rest.truncated)
  }

  /** One turn of the decoding loop. */
  lemma DecodeStep(t: seq<int>, s: seq<char>, j: nat, i: nat, nreq: int)
    requires j < |s| && Readable(t, s) && (nreq <= 0 || i < nreq)
    ensures var r := ReadValue(t, s, j);
      var rest := DecodeFrom(t, s, r.next, i + 1, nreq);
      DecodeFrom(t, s, j, i, nreq) == Raw([r.value] + rest.values, r.truncated || rest.truncated)
  {
  }

  /** What unpackcm6 decodes from s before undifferencing. */
  function Decode(s: seq<char>, nreq: int): Raw
    requires SevenBit(s)
  {
    DecodeFrom(DecodeTable(), s, 0, 0, nreq)
  }

  /** Every value takes at least one character, and with nreq > 0 no more
      than nreq values are produced; nothing is produced exactly when the
      loop ends at once. */
  lemma {:induction false} DecodeLength(t: seq<int>, s: seq<char>, j: nat, i: nat, nreq: int)
    requires j <= |s| && Readable(t, s)
    decreases |s| - j
    ensures var r := DecodeFrom(t, s, j, i, nreq);
      && |r.values| <= |s| - j
      && (nreq > 0 && i <= nreq ==> |r.values| <= nreq - i)
      && (r.values == [] <==> j == |s| || (nreq > 0 && i >= nreq))
  {
    if j < |s| && (nreq <= 0 || i < nreq) {
      DecodeLength(t, s, ReadValue(t, s, j).next, i + 1, nreq);
    }
  }

  /** At most one value per character, and at most nreq when nreq > 0. */
  lemma DecodeSize(s: seq<char>, nreq: int)
    requires SevenBit(s)
    ensures |Decode(s, nreq).values| <= |s|
    ensures nreq > 0 ==> |Decode(s, nreq).values| <= nreq
    ensures Decode(s, nreq).values == [] <==> s == []
  {
    DecodeLength(DecodeTable(), s, 0, 0, nreq);
  }

  /** Number of characters in s[lo..hi] whose continuation bit is clear. */
  function Terminals(t: seq<int>, s: seq<char>, lo: nat, hi: nat): nat
    requires lo <= hi <= |s| && Readable(t, s)
    decreases hi - lo
  {
    if lo == hi then 0 else Terminals(t, s, lo, hi - 1) + (if ContBit(Code(t, s[hi - 1])) then 0 else 1)
  }

  lemma {:induction false} TerminalsSplit(t: seq<int>, s: seq<char>, lo: nat, mid: nat, hi: nat)
    requires lo <= mid <= hi <= |s| && Readable(t, s)
    decreases hi - mid
    ensures Terminals(t, s, lo, hi) == Terminals(t, s, lo, mid) + Terminals(t, s, mid, hi)
  {
    if mid < hi {
      TerminalsSplit(t, s, lo, mid, hi - 1);
    }
  }

  /** Shape of a continuation run: every character but the last carries the
      continuation bit; the last one clears it unless the input ran out. */
  lemma {:induction false} TailShape(t: seq<int>, s: seq<char>, j: nat, acc: int)
    requires j <= |s| && Readable(t, s)
    decreases |s| - j
    ensures var r := Tail(t, s, j, acc);
      && Terminals(t, s, j, r.next) == (if r.truncated then 0 else 1)
      && (!r.truncated ==> j < r.next && !ContBit(Code(t, s[r.next - 1])))
      && (r.truncated && j < r.next ==> ContBit(Code(t, s[r.next - 1])))
  {
    if j < |s| {
      var c := Code(t, s[j]);
      var acc' := acc * 32 + c % 32;
      var r := Tail(t, s, j, acc);
      TerminalsSplit(t, s, j, j + 1, r.next);
      if ContBit(c) {
        assert r == Tail(t, s, j + 1, acc');
        TailShape(t, s, j + 1, acc');
      } else {
        assert r == Read(acc', j + 1, false);
      }
    }
  }

  /** One value ends at the first character with the continuation bit
      clear; a truncated value ends at the end of input on a character whose
      continuation bit is set. */
  lemma ReadValueShape(t: seq<int>, s: seq<char>, j: nat)
    requires j < |s| && Readable(t, s)
    ensures var r := ReadValue(t, s, j);
      && Terminals(t, s, j, r.next) == (if r.truncated then 0 else 1)
      && (ContBit(Code(t, s[r.next - 1])) <==> r.truncated)
  {
    var c := Code(t, s[j]);
    var r := ReadValue(t, s, j);
    TerminalsSplit(t, s, j, j + 1, r.next);
    if ContBit(c) {
      TailShape(t, s, j + 1, c % 16);
    }
  }

  /** Decoding every character (nreq <= 0) yields one value per character
      whose continuation bit is clear, plus one truncated value when the last
      character has it set; the truncation warning is raised exactly then. */
  lemma {:induction false} DecodeCount(t: seq<int>, s: seq<char>, j: nat, i: nat, nreq: int)
    requires j <= |s| && Readable(t, s) && nreq <= 0
    decreases |s| - j
    ensures var lastCont := j < |s| && ContBit(Code(t, s[|s| - 1]));
      && |DecodeFrom(t, s, j, i, nreq).values| == Terminals(t, s, j, |s|) + (if lastCont then 1 else 0)
      && (DecodeFrom(t, s, j, i, nreq).truncated <==> lastCont)
  {
    if j < |s| {
      var r := ReadValue(t, s, j);
      ReadValueShape(t, s, j);
      TerminalsSplit(t, s, j, r.next, |s|);
      DecodeCount(t, s, r.next, i + 1, nreq);
    }
  }

  /** With nreq > 0 decoding stops after nreq values: the result is the
      first nreq values of the unbounded decoding (all of them if there are
      fewer), and a truncation is reported only if the truncated value was
      among those read. */
  lemma {:induction false} DecodeBounded(t: seq<int>, s: seq<char>, j: nat, i: nat, nreq: int)
    requires j <= |s| && Readable(t, s) && nreq > 0 && i <= nreq
    decreases |s| - j
    ensures var all := DecodeFrom(t, s, j, i, 0);
      var part := DecodeFrom(t, s, j, i, nreq);
      && |part.values| == (if |all.values| < nreq - i then |all.values| else nreq - i)
      && part.values == all.values[..|part.values|]
      && (part.truncated <==> all.truncated && |all.values| <= nreq - i)
  {
    if j < |s| && i < nreq {
      var r := ReadValue(t, s, j);
      DecodeBounded(t, s, r.next, i + 1, nreq);
      var all := DecodeFrom(t, s, r.next, i + 1, 0);
      if r.truncated {
        assert r.next == |s|;
      } else if all.truncated {
        DecodeCount(t, s, r.next, i + 1, 0);
      }
    }
  }

  /** Bytes the scan in unpackcm6 assigns a code to. */
  predicate InAlphabet(b: int)
  {
    b == '+' as int || b == '-' as int || ('0' as int <= b <= '9' as int)
    || ('a' as int <= b <= 'z' as int) || ('A' as int <= b <= 'Z' as int)
  }

  /** How many alphabet bytes lie below b: the counter j of the scan when it
      reaches byte b. */
  function Rank(b: int): int
  {
    if b <= 43 then 0
    else if b <= 45 then 1
    else if b <= 48 then 2
    else if b <= 58 then b - 46
    else if b <= 65 then 12
    else if b <= 91 then b - 53
    else if b <= 97 then 38
    else if b <= 123 then b - 59
    else 64
  }

  /** The ascending scan numbers the alphabet bytes in the order met, which
      is exactly the position in the forward table; every other byte gets 0. */
  lemma ScanAssignsCode(b: int)
    requires 0 <= b < 256
    ensures CodeOf(b) == if InAlphabet(b) then Rank(b) else 0
  {
    AlphabetIncreasing();
    if InAlphabet(b) {
      var k := Rank(b);
      ByteAtIsEntry(k);
      forall q | 0 <= q < k ensures Cm6Table[q] as int != b {
        assert Cm6Table[q] < Cm6Table[k];
      }
      PositionFound(b, k, 0);
    } else {
      forall q | 0 <= q < 64 ensures Cm6Table[q] as int != b {
        ByteAtIsEntry(q);
      }
      PositionMissing(b, 0);
    }
  }

  /** The construction of the decode table in unpackcm6. */
  method BuildTable() returns (table: seq<int>)
    ensures table == DecodeTable()
  {
    var t := new int[256];
    var j := 0;
    var i := 0;
    while i < 256
      invariant 0 <= i <= 256 && j == Rank(i)
      invariant forall b :: 0 <= b < i ==> t[b] == CodeOf(b)
    {
      ScanAssignsCode(i);
      if i == '+' as int { t[i] := j; }
      else if i == '-' as int { t[i] := j; }
      else if '0' as int <= i <= '9' as int { t[i] := j; }
      else if 'a' as int <= i <= 'z' as int { t[i] := j; }
      else if 'A' as int <= i <= 'Z' as int { t[i] := j; }
      else {
        t[i] := 0;
        i := i + 1;
        continue;
      }
      j := j + 1;
      i := i + 1;
    }
    table := t[..];
  }

  /** The body of the decoding loop for one value: read the first digit,
      accumulate continuation digits while the continuation bit is set,
      apply the sign. */
  method ReadOne(s: seq<char>, j0: nat, table: seq<int>) returns (v: int, j: nat, trunc: bool)
    requires j0 < |s| && Readable(table, s)
    ensures Read(v, j, trunc) == ReadValue(table, s, j0)
  {
    j := j0;
    var cin := s[j] as int;
    j := j + 1;
    var val := table[cin] % 128;
    var sign := (val / 16) % 2 == 1;
    var cont := (val / 32) % 2 == 1;
    v := val % 16;
    trunc := false;
    ghost var target := if cont then Tail(table, s, j, v) else Read(v, j, false);
    while cont
      invariant j0 < j <= |s| && !trunc
      invariant cont ==> Tail(table, s, j, v) == target
      invariant !cont ==> target == Read(v, j, false)
      decreases |s| - j
    {
      v := v * 32;
      if j >= |s| {
        trunc := true;
        assert target == Read(v, j, true);
        break;
      }
      cin := s[j] as int;
      j := j + 1;
      val := table[cin] % 128;
      cont := (val / 32) % 2 == 1;
      v := v + val % 32;
    }
    assert target == Read(v, j, trunc);
    if sign {
      v := -v;
    }
  }

  /** The capacity unpackcm6 starts with. */
  function InitialCapacity(nreq: int): nat
  {
    if nreq > 0 then nreq else 10
  }

  /** `realloc` by ten more slots and `memset` of the new slots to zero. */
  method Grow(buf: array<int>, cap: nat) returns (r: array<int>)
    requires cap <= buf.Length
    ensures fresh(r) && r.Length == cap + 10
    ensures r[..cap] == buf[..cap]
    ensures forall k :: cap <= k < cap + 10 ==> r[k] == 0
  {
    r := new int[cap + 10];
    forall k | 0 <= k < cap + 10 {
      r[k] := if k < cap then buf[k] else 0;
    }
  }

  /** Store value i, first growing a full buffer by ten zeroed slots. */
  method Store(buf: array<int>, cap: nat, i: nat, v: int) returns (r: array<int>, cap': nat)
    requires i <= cap <= buf.Length
    requires forall k :: i <= k < cap ==> buf[k] == 0
    modifies buf
    ensures i < cap ==> r == buf && cap' == cap
    ensures i == cap ==> fresh(r) && r.Length == cap' == cap + 10
    ensures i < cap' <= r.Length
    ensures r[..i + 1] == old(buf[..i]) + [v]
    ensures forall k :: i < k < cap' ==> r[k] == 0
  {
    r, cap' := buf, cap;
    if i >= cap {
      r := Grow(buf, cap);
      cap' := cap + 10;
    }
    assert r[..i] == old(buf[..i]);
    r[i] := v;
    assert r[..i + 1] == r[..i] + [v];
  }

  /** `realloc` to exactly n slots. */
  method Shrink(buf: array<int>, n: nat) returns (r: array<int>)
    requires n <= buf.Length
    ensures fresh(r) && r.Length == n && r[..] == buf[..n]
  {
    r := new int[n];
    forall k | 0 <= k < n {
      r[k] := buf[k];
    }
  }

  /** The decoding loop of unpackcm6 over a zeroed buffer of capacity
      cap0, growing it by ten slots whenever it is full. */
  method Fill(s: seq<char>, buf: array<int>, cap0: nat, nreq: int, table: seq<int>)
    returns (out: array<int>, nint: nat, cap: nat, truncated: bool)
    requires Readable(table, s)
    requires cap0 <= buf.Length && (nreq > 0 ==> cap0 == nreq)
    requires forall k :: 0 <= k < cap0 ==> buf[k] == 0
    modifies buf
    ensures nint <= cap <= out.Length && cap0 <= cap
    ensures out[..nint] == DecodeFrom(table, s, 0, 0, nreq).values
    ensures truncated == DecodeFrom(table, s, 0, 0, nreq).truncated
    ensures forall k :: nint <= k < cap ==> out[k] == 0
    ensures cap == cap0 ==> out == buf
    ensures cap > cap0 ==> nreq <= 0 && nint > cap0 && fresh(out) && out.Length == cap
  {
    out, cap := buf, cap0;
    ghost var full := DecodeFrom(table, s, 0, 0, nreq);
    var i: nat := 0;
    var j: nat := 0;
    truncated := false;
    while j < |s|
      invariant j <= |s| && i <= cap <= out.Length && cap0 <= cap
      invariant nreq > 0 ==> cap == cap0 && i <= nreq
      invariant cap == cap0 ==> out == buf
      invariant cap > cap0 ==> i > cap0 && fresh(out) && out.Length == cap
      invariant full.values == out[..i] + DecodeFrom(table, s, j, i, nreq).values
      invariant full.truncated == (truncated || DecodeFrom(table, s, j, i, nreq).truncated)
      invariant forall k :: i <= k < cap ==> out[k] == 0
      decreases |s| - j
    {
      if nreq > 0 && i >= nreq {
        break;
      }
      ghost var done := out[..i];
      var v, next, tr := ReadOne(s, j, table);
      ghost var rest := DecodeFrom(table, s, next, i + 1, nreq);
      assert DecodeFrom(table, s, j, i, nreq) == Raw([v] + rest.values, tr || rest.truncated);
      out, cap := Store(out, cap, i, v);
      assert full.values == (done + [v]) + rest.values;
      j := next;
      truncated := truncated || tr;
      i := i + 1;
    }
    nint := i;
    assert full.values == out[..nint];
  }

  /** The decoding part of unpackcm6: table, buffer set-up, the loop over
      the characters, and the final resize of a buffer it allocated. */
  method DecodeInto(s: seq<char>, intbuf: array?<int>, nreq: int)
    returns (out: array<int>, nint: nat, truncated: bool)
    requires SevenBit(s)
    requires intbuf != null ==> intbuf.Length >= InitialCapacity(nreq)
    modifies intbuf
    ensures nint <= out.Length
    ensures out[..nint] == Decode(s, nreq).values
    ensures truncated == Decode(s, nreq).truncated
    ensures intbuf == null || (nreq <= 0 && nint > 10) ==> fresh(out) && out.Length == nint
    ensures intbuf != null && (nreq > 0 || nint <= 10) ==>
      out == intbuf && forall k :: nint <= k < InitialCapacity(nreq) ==> out[k] == 0
  {
    var table := BuildTable();
    var cap0 := InitialCapacity(nreq);
    var buf: array<int>;
    if intbuf == null {
      buf := new int[cap0];
    } else {
      buf := intbuf;
    }
    forall k | 0 <= k < cap0 {
      buf[k] := 0;
    }
    var cap;
    out, nint, cap, truncated := Fill(s, buf, cap0, nreq, table);
    if (intbuf == null || cap > cap0) && nint != cap {
      out := Shrink(out, nint);
    }
  }

  /** unpackcm6: decode the stream into intbuf (or into a new buffer when
      intbuf is null), then undo ndiff levels of differencing. Returns the
      buffer, the count *Nint, and the two warnings (truncated input; fewer
      values than requested). */
  method UnpackCm6(s: seq<char>, intbuf: array?<int>, nreq: int, ndiff: nat)
    returns (out: array<int>, nint: nat, truncated: bool, short: bool)
    requires SevenBit(s)
    requires intbuf != null ==> intbuf.Length >= InitialCapacity(nreq)
    modifies intbuf
    ensures nint <= out.Length
    ensures out[..nint] == UndeltaN(Decode(s, nreq).values, ndiff)
    ensures truncated == Decode(s, nreq).truncated
    ensures short == (nreq > 0 && nint != nreq)
    ensures intbuf == null || (nreq <= 0 && nint > 10) ==> fresh(out) && out.Length == nint
    ensures intbuf != null && (nreq > 0 || nint <= 10) ==>
      out == intbuf && forall k :: nint <= k < InitialCapacity(nreq) ==> out[k] == 0
  {
    out, nint, truncated := DecodeInto(s, intbuf, nreq);
    short := nreq > 0 && nint != nreq;
    UndeltaTimes(out, nint, ndiff);
  }
}

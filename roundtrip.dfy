/**
  Decoding what the encoder writes gives back the values it was given:
  digit by digit, value by value, and, with the differencing undone,
  for whole buffers.
 */
module Cm6RoundTrip {
  import opened Cm6Alphabet
  import opened Differencing
  import opened Cm6Encoder
  import opened Cm6Decoder

  lemma MulAtLeast(d: int, k: int)
    requires d > 0 && k >= 1
    ensures d * k >= d
  {
    assert d * k == d * (k - 1) + d;
    assert d * (k - 1) >= 0;
  }

  lemma DivUnique(m: nat, d: nat, q: nat, r: nat)
    requires d > 0 && m == d * q + r && r < d
    ensures m / d == q && m % d == r
  {
    var q', r' := m / d, m % d;
    assert m == d * q' + r';
    var k := q - q';
    assert d * q - d * q' == d * k;
    assert d * k == r' - r;
    if k >= 1 {
      MulAtLeast(d, k);
    } else if k <= -1 {
      MulAtLeast(d, q' - q);
    }
    assert k == 0;
  }

  /** Dividing by a * b is dividing by a, then by b. */
  lemma DivDiv(m: nat, a: nat, b: nat)
    requires a > 0 && b > 0
    ensures m / (a * b) == (m / a) / b
  {
    var q1, r1 := m / a, m % a;
    var q2, r2 := q1 / b, q1 % b;
    assert m == a * q1 + r1;
    assert q1 == b * q2 + r2;
    assert a * q1 == a * (b * q2) + a * r2;
    assert a * (b * q2) == (a * b) * q2;
    assert a * r2 + r1 < a * b by {
      MulAtLeast(a, b - r2);
      assert a * (b - r2) == a * b - a * r2;
    }
    DivUnique(m, a * b, q2, a * r2 + r1);
  }
  /** One more digit: the magnitude above bit n is the magnitude above bit
      n + 5 shifted left by five, plus digit bits n..n+4. */
  lemma ShiftStep(m: nat, n: nat)
    ensures (m / Pow2(n + 5)) * 32 + (m / Pow2(n)) % 32 == m / Pow2(n)
  {
    Pow2Add(n, 5);
    Pow2Values();
    DivDiv(m, Pow2(n), 32);
  }

  /** Every digit code after the first holds its five digit bits below the
      continuation bit. */
  lemma LowBits(v: int, q: nat)
    requires Representable(v) && 0 < q < |EncodeValue(v)|
    ensures EncodeValue(v)[q] % 32 == Digit(Abs(v), |EncodeValue(v)|, q)
  {
    var g := DigitCount(Abs(v));
    assert EncodeValue(v)[q] == DigitCode(Abs(v), g, q, v < 0);
    DigitCodeLayout(Abs(v), g, q, v < 0);
  }

  /** A table that inverts the alphabet maps every written character back
      to its code. */
  lemma CodesRead(t: seq<int>, v: int, s: seq<char>, j: nat)
    requires Inverts(t) && Representable(v) && SevenBit(s)
    requires j + |EncodeValue(v)| <= |s|
    requires s[j..j + |EncodeValue(v)|] == Chars(EncodeValue(v))
    ensures forall q :: 0 <= q < |EncodeValue(v)| ==> Code(t, s[j + q]) == EncodeValue(v)[q]
  {
    var codes := EncodeValue(v);
    var chars := Chars(codes);
    forall q | 0 <= q < |codes| ensures Code(t, s[j + q]) == codes[q] {
      var k := codes[q];
      assert 0 <= k < 64;
      assert s[j + q] == s[j..j + |codes|][q] == chars[q] == Cm6Table[k];
      assert t[Cm6Table[k] as int] == k;
      assert Code(t, s[j + q]) == k % 128;
    }
  }

  /** Adding digit q of an encoded value to the magnitude above it gives the
      magnitude above the next digit, and the whole magnitude after the last
      digit; only the last digit has the continuation bit clear. */
  lemma NextAccumulator(v: int, q: nat, acc: int, c: int)
    requires Representable(v) && 1 <= q < |EncodeValue(v)|
    requires c == EncodeValue(v)[q]
    requires acc == Abs(v) / Pow2(5 * (|EncodeValue(v)| - q))
    ensures acc * 32 + c % 32 == Abs(v) / Pow2(5 * (|EncodeValue(v)| - 1 - q))
    ensures q == |EncodeValue(v)| - 1 ==> acc * 32 + c % 32 == Abs(v)
    ensures ContBit(c) <==> q < |EncodeValue(v)| - 1
  {
    var g := |EncodeValue(v)|;
    var m := Abs(v);
    LowBits(v, q);
    var n := 5 * (g - 1 - q);
    ShiftStep(m, n);
    assert 5 * (g - q) == n + 5;
    if q == g - 1 {
      assert Pow2(n) == 1;
    }
  }

  /** The continuation loop over digits q.. of an encoded value, entered with
      the magnitude above those digits, ends after the last digit with the
      whole magnitude. */
  lemma {:induction false} TailEncoded(t: seq<int>, v: int, s: seq<char>, j: nat, q: nat, acc: int)
    requires Inverts(t) && Representable(v) && SevenBit(s)
    requires 1 <= q < |EncodeValue(v)| && j + |EncodeValue(v)| <= |s|
    requires forall p :: 0 <= p < |EncodeValue(v)| ==> Code(t, s[j + p]) == EncodeValue(v)[p]
    requires acc == Abs(v) / Pow2(5 * (|EncodeValue(v)| - q))
    decreases |EncodeValue(v)| - q
    ensures Tail(t, s, j + q, acc) == Read(Abs(v), j + |EncodeValue(v)|, false)
  {
    var g := |EncodeValue(v)|;
    var c := Code(t, s[j + q]);
    assert c == EncodeValue(v)[q];
    NextAccumulator(v, q, acc, c);
    var acc' := acc * 32 + c % 32;
    if q == g - 1 {
      assert Tail(t, s, j + q, acc) == Read(acc', j + g, false);
    } else {
      assert Tail(t, s, j + q, acc) == Tail(t, s, j + q + 1, acc');
      TailEncoded(t, v, s, j, q + 1, acc');
    }
  }

  /** Reading at the start of an encoded value gives the value and the
      position just after its last digit. */
  lemma ReadValueEncoded(t: seq<int>, v: int, s: seq<char>, j: nat)
    requires Inverts(t) && Representable(v) && SevenBit(s)
    requires j + |Word(v)| <= |s| && s[j..j + |Word(v)|] == Word(v)
    ensures ReadValue(t, s, j) == Read(v, j + |Word(v)|, false)
  {
    var codes := EncodeValue(v);
    var g := |codes|;
    assert Word(v) == Chars(codes);
    CodesRead(t, v, s, j);
    var c := Code(t, s[j]);
    assert c == codes[0];
    if g == 1 {
      assert !ContBit(c);
      assert Pow2(5 * (g - 1)) == 1;
    } else {
      assert ContBit(c);
      TailEncoded(t, v, s, j, 1, c % 16);
    }
  }

  /** Encoded text is made of 7-bit characters. */
  lemma EncodedSevenBit(t: seq<int>)
    requires AllRepresentable(t)
    ensures SevenBit(EncodeAll(t))
  {
    EncodeAllInAlphabet(t);
    AlphabetIncreasing();
    var s := EncodeAll(t);
    forall i | 0 <= i < |s| ensures s[i] as int < 128 {
      var k :| 0 <= k < 64 && s[i] == Cm6Table[k];
    }
  }

  /** A suffix that is w followed by rest holds w at its start and rest
      after it. */
  lemma SuffixSplit(s: seq<char>, j: nat, w: seq<char>, rest: seq<char>)
    requires j <= |s| && s[j..] == w + rest
    ensures j + |w| <= |s| && s[j..j + |w|] == w && s[j + |w|..] == rest
  {
    assert s[j..j + |w|] == s[j..][..|w|];
    assert s[j + |w|..] == s[j..][|w|..];
  }

  /** Decoding all of the text (nreq <= 0) from the start of an encoded
      suffix yields exactly the encoded values, without a truncation warning. */
  lemma {:induction false} DecodeEncodeAll(t: seq<int>, vs: seq<int>, s: seq<char>, j: nat, i: nat, nreq: int)
    requires Inverts(t) && AllRepresentable(vs) && SevenBit(s) && nreq <= 0
    requires j <= |s| && s[j..] == EncodeAll(vs)
    decreases |vs|
    ensures DecodeFrom(t, s, j, i, nreq) == Raw(vs, false)
  {
    if vs != [] {
      var v := vs[0];
      assert Representable(v);
      var chars := Word(v);
      var g := |chars|;
      EncodeAllCons(vs);
      SuffixSplit(s, j, chars, EncodeAll(vs[1..]));
      ReadValueEncoded(t, v, s, j);
      var r := ReadValue(t, s, j);
      var k := r.next;
      assert k == j + g && r.value == v && !r.truncated;
      DecodeEncodeAll(t, vs[1..], s, k, i + 1, nreq);
      DecodeStep(t, s, j, i, nreq);
      assert [v] + vs[1..] == vs;
    } else {
      assert |s[j..]| == 0;
      assert j == |s|;
      assert DecodeFrom(t, s, j, i, nreq) == Raw([], false);
    }
  }

  /** The text the encoder writes for vs decodes to vs: all of it when nreq
      <= 0, its first nreq values when nreq > 0; never with a truncation
      warning. */
  lemma DecodeOfEncode(vs: seq<int>, nreq: int)
    requires AllRepresentable(vs)
    ensures SevenBit(EncodeAll(vs))
    ensures Decode(EncodeAll(vs), nreq).values == if 0 < nreq < |vs| then vs[..nreq] else vs
    ensures !Decode(EncodeAll(vs), nreq).truncated
  {
    var s := EncodeAll(vs);
    var t := DecodeTable();
    EncodedSevenBit(vs);
    DecodeTableInverts();
    assert s[0..] == s;
    DecodeEncodeAll(t, vs, s, 0, 0, 0);
    if nreq > 0 {
      DecodeBounded(t, s, 0, 0, nreq);
    } else {
      DecodeEncodeAll(t, vs, s, 0, 0, nreq);
    }
  }

  /** packcm6 followed by unpackcm6 with the same differencing order
      restores the buffer: the text written for the ndiff-fold differences
      of a decodes, once undifferenced, back to a. */
  lemma RoundTrip(a: seq<int>, ndiff: nat, nreq: int)
    requires AllRepresentable(DeltaN(a, ndiff))
    requires nreq <= 0 || nreq >= |a|
    ensures SevenBit(EncodeAll(DeltaN(a, ndiff)))
    ensures UndeltaN(Decode(EncodeAll(DeltaN(a, ndiff)), nreq).values, ndiff) == a
    ensures !Decode(EncodeAll(DeltaN(a, ndiff)), nreq).truncated
  {
    FirstUnchanged(a, ndiff);
    DecodeOfEncode(DeltaN(a, ndiff), nreq);
    UndeltaNDeltaN(a, ndiff);
  }

  /** Magnitudes below 16 take one character: 5 is code 5, the character
      '3' (the digits start at code 2); -5 adds the sign bit, code 21, 'J'. */
  lemma SmallValues()
    ensures Word(5) == "3" && Word(-5) == "J"
  {
    DigitCountTable(5);
    AlphabetOrder();
    assert Pow2(0) == 1;
    assert EncodeValue(5) == [DigitCode(5, 1, 0, false)] == [5];
    assert EncodeValue(-5) == [DigitCode(5, 1, 0, true)] == [21];
  }

  /** A short stream: "3J+" holds 5, -5 and 0. */
  lemma SmallStream()
    ensures Decode("3J+", 0) == Raw([5, -5, 0], false)
  {
    SmallValues();
    ZeroIsPlus();
    var t := [5, -5, 0];
    EncodeAllCons(t);
    EncodeAllCons(t[1..]);
    EncodeAllCons(t[2..]);
    assert t[1..][1..] == t[2..] && t[2..][1..] == [];
    assert EncodeAll([]) == [];
    assert EncodeAll(t) == "3J+";
    DecodeOfEncode(t, 0);
  }
}

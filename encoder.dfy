/**
  The CM6 encoder: every value of the (differenced) buffer is written as one
  to six base-64 digits, most significant first. The first digit carries
  four magnitude bits, the sign bit (16) and the continuation bit (32); each
  later digit carries five magnitude bits and the continuation bit, which is
  clear on the last digit only.
 */
module Cm6Encoder {
  import opened Cm6Alphabet
  import opened Differencing

  /** 2 to the power n; `1 << n` and the shift `x >> n` of the C code. */
  function Pow2(n: nat): (p: nat)
    ensures p >= 1
  {
    if n == 0 then 1 else 2 * Pow2(n - 1)
  }

  /** Magnitudes below 2^29 fit in six digits (4 + 5 * 5 bits). */
  const Cap: int := 0x2000_0000

  predicate Representable(v: int) { -Cap < v < Cap }

  predicate AllRepresentable(s: seq<int>)
  {
    forall i :: 0 <= i < |s| ==> Representable(s[i])
  }

  /** Magnitude m fits in the 4 + 5 * (g - 1) bits of g digits. */
  predicate Fits(m: nat, g: nat)
    requires g >= 1
  {
    m < Pow2(5 * g - 1)
  }

  lemma {:induction false} Pow2Add(a: nat, b: nat)
    ensures Pow2(a + b) == Pow2(a) * Pow2(b)
  {
    if a > 0 {
      Pow2Add(a - 1, b);
      assert Pow2(a + b) == 2 * Pow2(a - 1 + b);
    }
  }

  lemma Pow2Values()
    ensures Pow2(4) == 16 && Pow2(5) == 32 && Pow2(9) == 0x200 && Pow2(14) == 0x4000
    ensures Pow2(19) == 0x8_0000 && Pow2(24) == 0x100_0000 && Pow2(29) == Cap
  {
  }

  function WidthFrom(m: nat, g: nat): (r: nat)
    requires 1 <= g <= 6
    requires m < Cap
    requires forall h :: 1 <= h < g ==> !Fits(m, h)
    decreases 6 - g
    ensures g <= r <= 6 && Fits(m, r)
    ensures forall h :: 1 <= h < r ==> !Fits(m, h)
  {
    Pow2Values();
    if g == 6 || Fits(m, g) then g else WidthFrom(m, g + 1)
  }

  /** The number of digits of magnitude m: the least g (at most 6) whose
      4 + 5 * (g - 1) bits hold m. */
  function DigitCount(m: nat): (g: nat)
    requires m < Cap
    ensures 1 <= g <= 6 && Fits(m, g)
    ensures forall h :: 1 <= h < g ==> !Fits(m, h)
  {
    WidthFrom(m, 1)
  }

  /** The digit count by magnitude range: one digit below 16, then one more
      for every further five bits. */
  lemma DigitCountTable(m: nat)
    requires m < Cap
    ensures DigitCount(m) ==
      if m < 16 then 1
      else if m < 0x200 then 2
      else if m < 0x4000 then 3
      else if m < 0x8_0000 then 4
      else if m < 0x100_0000 then 5
      else 6
  {
    Pow2Values();
    var g := DigitCount(m);
    assert Fits(m, g);
    if g > 1 { assert !Fits(m, 1); }
    if g > 2 { assert !Fits(m, 2); }
    if g > 3 { assert !Fits(m, 3); }
    if g > 4 { assert !Fits(m, 4); }
    if g > 5 { assert !Fits(m, 5); }
  }

  /** Digit j (0 = most significant) of the g-digit form of m: five bits
      taken at bit 5 * (g - 1 - j), `(m >> nbt) & 31`. */
  function Digit(m: nat, g: nat, j: nat): nat
    requires j < g
  {
    (m / Pow2(5 * (g - 1 - j))) % 32
  }

  lemma DivLess(x: nat, a: nat, b: nat)
    requires a > 0 && x < a * b
    ensures x / a < b
  {
  }

  /** The first digit of a value that fits its width holds at most four
      bits, so it never reaches the sign bit. */
  lemma TopDigitSmall(m: nat, g: nat)
    requires 1 <= g && Fits(m, g)
    ensures m / Pow2(5 * (g - 1)) < 16
    ensures Digit(m, g, 0) == m / Pow2(5 * (g - 1))
  {
    var p := Pow2(5 * (g - 1));
    Pow2Add(5 * (g - 1), 4);
    assert 5 * (g - 1) + 4 == 5 * g - 1;
    Pow2Values();
    assert m < p * 16;
    DivLess(m, p, 16);
    assert Digit(m, g, 0) == (m / p) % 32;
  }

  /** Every entry is a 6-bit digit code. */
  predicate ValidCodes(codes: seq<int>)
  {
    forall j :: 0 <= j < |codes| ==> 0 <= codes[j] < 64
  }

  /** Code of digit j of the g-digit form of magnitude m: the continuation
      bit on every digit but the last, the sign bit on the first digit of a
      negative value. */
  function DigitCode(m: nat, g: nat, j: nat, neg: bool): int
    requires j < g
  {
    Digit(m, g, j) + (if j < g - 1 then 32 else 0) + (if j == 0 && neg then 16 else 0)
  }

  lemma DigitCodeLayout(m: nat, g: nat, j: nat, neg: bool)
    requires j < g && Fits(m, g)
    ensures 0 <= DigitCode(m, g, j, neg) < 64
    ensures ContBit(DigitCode(m, g, j, neg)) <==> j < g - 1
    ensures j == 0 ==> (SignBit(DigitCode(m, g, j, neg)) <==> neg)
    ensures j == 0 ==> DigitCode(m, g, j, neg) % 16 == m / Pow2(5 * (g - 1))
    ensures j > 0 ==> DigitCode(m, g, j, neg) % 32 == Digit(m, g, j)
  {
    var d := Digit(m, g, j);
    assert 0 <= d < 32;
    if j == 0 {
      TopDigitSmall(m, g);
      assert d < 16;
    }
  }

  /** The digit codes of one value v, before mapping through the alphabet. */
  function EncodeValue(v: int): (codes: seq<int>)
    requires Representable(v)
    ensures |codes| == DigitCount(Abs(v))
    ensures ValidCodes(codes)
    ensures forall j :: 0 <= j < |codes| - 1 ==> ContBit(codes[j])
    ensures !ContBit(codes[|codes| - 1])
    ensures SignBit(codes[0]) <==> v < 0
    ensures codes[0] % 16 == Abs(v) / Pow2(5 * (|codes| - 1))
  {
    var m := Abs(v);
    var g := DigitCount(m);
    var codes := seq(g, j requires 0 <= j < g => DigitCode(m, g, j, v < 0));
    assert forall j :: 0 <= j < g ==> 0 <= codes[j] < 64 && (ContBit(codes[j]) <==> j < g - 1) by {
      forall j | 0 <= j < g ensures 0 <= codes[j] < 64 && (ContBit(codes[j]) <==> j < g - 1) {
        DigitCodeLayout(m, g, j, v < 0);
      }
    }
    DigitCodeLayout(m, g, 0, v < 0);
    codes
  }

  /** Digit codes written as alphabet characters. */
  function Chars(codes: seq<int>): (r: seq<char>)
    requires ValidCodes(codes)
    ensures |r| == |codes|
  {
    seq(|codes|, j requires 0 <= j < |codes| => Cm6Table[codes[j]])
  }

  /** The characters written for one value. */
  function Word(v: int): (w: seq<char>)
    requires Representable(v)
    ensures 1 <= |w| <= 6
  {
    Chars(EncodeValue(v))
  }

  /** Only alphabet characters are written for a value. */
  lemma WordInAlphabet(v: int)
    requires Representable(v)
    ensures forall i :: 0 <= i < |Word(v)| ==> Word(v)[i] in Cm6Table
  {
    var codes := EncodeValue(v);
    forall i | 0 <= i < |Word(v)| ensures Word(v)[i] in Cm6Table {
      assert 0 <= codes[i] < 64;
      assert Word(v)[i] == Cm6Table[codes[i]];
    }
  }

  /** The words of the values of t, in order. */
  function Words(t: seq<int>): (ws: seq<seq<char>>)
    requires AllRepresentable(t)
    ensures |ws| == |t|
  {
    seq(|t|, k requires 0 <= k < |t| => Word(t[k]))
  }

  /** The words ws written one after the other. */
  function Concat(ws: seq<seq<char>>): seq<char>
  {
    if ws == [] then [] else ws[0] + Concat(ws[1..])
  }

  /** The characters written for a whole buffer, value by value. */
  function EncodeAll(t: seq<int>): seq<char>
    requires AllRepresentable(t)
  {
    Concat(Words(t))
  }

  lemma {:induction false} ConcatSnoc(ws: seq<seq<char>>, w: seq<char>)
    ensures Concat(ws + [w]) == Concat(ws) + w
  {
    if ws == [] {
      assert [] + [w] == [w];
      assert [w][1..] == [];
    } else {
      assert (ws + [w])[1..] == ws[1..] + [w];
      ConcatSnoc(ws[1..], w);
    }
  }

  /** Every word between one and six characters long bounds the length of
      their concatenation. */
  lemma {:induction false} ConcatLength(ws: seq<seq<char>>)
    requires forall k :: 0 <= k < |ws| ==> 1 <= |ws[k]| <= 6
    ensures |ws| <= |Concat(ws)| <= 6 * |ws|
  {
    if ws != [] {
      ConcatLength(ws[1..]);
    }
  }

  /** A property of every character of every word holds of every character
      of their concatenation. */
  lemma {:induction false} ConcatEvery(ws: seq<seq<char>>, P: char -> bool)
    requires forall k, i :: 0 <= k < |ws| && 0 <= i < |ws[k]| ==> P(ws[k][i])
    ensures forall i :: 0 <= i < |Concat(ws)| ==> P(Concat(ws)[i])
  {
    if ws != [] {
      ConcatEvery(ws[1..], P);
      var c := Concat(ws);
      forall i | 0 <= i < |c| ensures P(c[i]) {
        if i < |ws[0]| {
          assert c[i] == ws[0][i];
        } else {
          assert c[i] == Concat(ws[1..])[i - |ws[0]|];
        }
      }
    }
  }

  /** Each value takes one to six characters. */
  lemma EncodeAllLength(t: seq<int>)
    requires AllRepresentable(t)
    ensures |t| <= |EncodeAll(t)| <= 6 * |t|
  {
    ConcatLength(Words(t));
  }

  /** Only characters of the alphabet are written. */
  lemma EncodeAllInAlphabet(t: seq<int>)
    requires AllRepresentable(t)
    ensures forall i :: 0 <= i < |EncodeAll(t)| ==> EncodeAll(t)[i] in Cm6Table
  {
    var ws := Words(t);
    forall k, i | 0 <= k < |ws| && 0 <= i < |ws[k]| ensures ws[k][i] in Cm6Table {
      WordInAlphabet(t[k]);
    }
    ConcatEvery(ws, c => c in Cm6Table);
  }

  /** Encoding one more value appends its word. */
  lemma EncodeAllSnoc(t: seq<int>, i: nat)
    requires i < |t| && AllRepresentable(t)
    ensures EncodeAll(t[..i + 1]) == EncodeAll(t[..i]) + Word(t[i])
  {
    assert Words(t[..i + 1]) == Words(t[..i]) + [Word(t[i])];
    ConcatSnoc(Words(t[..i]), Word(t[i]));
  }

  /** The text of a non-empty buffer starts with the word of its first
      value. */
  lemma EncodeAllCons(t: seq<int>)
    requires t != [] && AllRepresentable(t)
    ensures EncodeAll(t) == Word(t[0]) + EncodeAll(t[1..])
  {
    assert Words(t)[1..] == Words(t[1..]);
  }

  /** Total number of digits of the values of t. */
  function DigitTotal(t: seq<int>): nat
    requires AllRepresentable(t)
  {
    if t == [] then 0 else DigitCount(Abs(t[0])) + DigitTotal(t[1..])
  }

  /** The text written for t is exactly as long as all digits together, so
      packcm6 grows *Ncm6 by the total digit count. */
  lemma {:induction false} EncodeAllDigitTotal(t: seq<int>)
    requires AllRepresentable(t)
    ensures |EncodeAll(t)| == DigitTotal(t)
  {
    if t != [] {
      EncodeAllCons(t);
      assert |Word(t[0])| == |EncodeValue(t[0])|;
      EncodeAllDigitTotal(t[1..]);
    }
  }

  /** The value 0 is written as the single character '+'. */
  lemma ZeroIsPlus()
    ensures Word(0) == "+"
  {
    DigitCountTable(0);
    AlphabetOrder();
    var c := EncodeValue(0);
    assert |c| == 1;
    assert c[0] == DigitCode(0, 1, 0, false) == 0;
    assert Chars(c) == [Cm6Table[c[0]]];
  }

  /** packcm6: difference the buffer ndiff times, append the digits of every
      differenced value to buf, then undo the differencing. */
  method PackCm6(a: array<int>, buf: seq<char>, ndiff: nat) returns (out: seq<char>)
    requires AllRepresentable(DeltaN(a[..], ndiff))
    modifies a
    ensures a[..] == old(a[..])
    ensures out == buf + EncodeAll(DeltaN(old(a[..]), ndiff))
  {
    ghost var orig := a[..];
    assert a[..a.Length] == orig;
    DeltaTimes(a, a.Length, ndiff);
    assert a[..a.Length] == a[..];
    out := AppendValues(a, buf);
    ghost var t := a[..];
    assert a[..a.Length] == t;
    UndeltaTimes(a, a.Length, ndiff);
    assert a[..a.Length] == a[..];
    UndeltaNDeltaN(orig, ndiff);
  }

  /** The digit loop of packcm6: the digits of every value of a, in order,
      appended to buf. */
  method AppendValues(a: array<int>, buf: seq<char>) returns (out: seq<char>)
    requires AllRepresentable(a[..])
    ensures out == buf + EncodeAll(a[..])
  {
    out := buf;
    var sub := new int[6];
    ghost var t := a[..];
    for i := 0 to a.Length
      invariant out == buf + EncodeAll(t[..i])
    {
      assert a[i] == t[i] && Representable(t[i]);
      out := AppendValue(out, a[i], sub);
      AppendNext(buf, t, i);
    }
    assert t[..a.Length] == t;
  }

  /** Appending the word of value i to the text of the values before it
      gives the text of the values up to i. */
  lemma AppendNext(buf: seq<char>, t: seq<int>, i: nat)
    requires i < |t| && AllRepresentable(t)
    ensures (buf + EncodeAll(t[..i])) + Word(t[i]) == buf + EncodeAll(t[..i + 1])
  {
    EncodeAllSnoc(t, i);
  }

  /** One turn of the per-value loop of packcm6: the digit codes of v built
      in sub, then their characters appended to out. */
  method AppendValue(out: seq<char>, v: int, sub: array<int>) returns (r: seq<char>)
    requires Representable(v) && sub.Length == 6
    modifies sub
    ensures r == out + Word(v)
  {
    var k := ValueDigits(v, sub);
    r := AppendDigits(out, sub, k);
  }

  /** The digit codes of one value written into the six-slot buffer sub:
      the width search, the digits from the most significant down, then the
      cleared continuation bit of the last digit and the sign bit. */
  method ValueDigits(v: int, sub: array<int>) returns (k: nat)
    requires Representable(v) && sub.Length == 6
    modifies sub
    ensures k <= 6 && sub[..k] == EncodeValue(v)
  {
    var iint := if v > 0 then v else -v;
    ghost var g;
    var nbt;
    nbt, g := SearchWidth(iint);
    k := WriteDigits(iint, nbt - 4, g, sub);
    ghost var raw := sub[..k];
    sub[k - 1] := sub[k - 1] - 32;
    ghost var cleared := sub[..k];
    assert cleared == raw[k - 1 := raw[k - 1] - 32];
    sub[0] := sub[0] + (if v < 0 then 16 else 0);
    assert sub[..k] == cleared[0 := cleared[0] + (if v < 0 then 16 else 0)];
    MarkedDigits(v, raw);
  }

  /** The digit loop of packcm6: five bits at a time from the top, every
      digit first written with its continuation bit set. */
  method WriteDigits(m: nat, nbt0: int, ghost g: nat, sub: array<int>) returns (k: nat)
    requires 1 <= g <= sub.Length && nbt0 == 5 * (g - 1)
    modifies sub
    ensures k == g
    ensures forall q :: 0 <= q < g ==> sub[q] == Digit(m, g, q) + 32
  {
    k := 0;
    var nbt := nbt0;
    var more := true;
    while more
      invariant 0 <= k <= g && nbt == 5 * (g - 1 - k)
      invariant more <==> k < g
      invariant forall q :: 0 <= q < k ==> sub[q] == Digit(m, g, q) + 32
      decreases g - k
    {
      sub[k] := (m / Pow2(nbt)) % 32 + 32;
      k := k + 1;
      nbt := nbt - 5;
      more := nbt >= 0;
    }
  }

  /** Clearing the continuation bit of the last digit and setting the sign
      bit of the first one turns the plain digits into EncodeValue. */
  lemma MarkedDigits(v: int, raw: seq<int>)
    requires Representable(v) && |raw| == DigitCount(Abs(v))
    requires forall q :: 0 <= q < |raw| ==> raw[q] == Digit(Abs(v), |raw|, q) + 32
    ensures var g := |raw|;
      var cleared := raw[g - 1 := raw[g - 1] - 32];
      cleared[0 := cleared[0] + (if v < 0 then 16 else 0)] == EncodeValue(v)
  {
    var g := |raw|;
    var cleared := raw[g - 1 := raw[g - 1] - 32];
    var marked := cleared[0 := cleared[0] + (if v < 0 then 16 else 0)];
    forall q | 0 <= q < g ensures marked[q] == EncodeValue(v)[q] {
      assert marked[q] == DigitCode(Abs(v), g, q, v < 0);
    }
  }

  /** The width search of packcm6: nbt grows by five bits from four until
      the magnitude fits below 2^nbt, at most to 29. */
  method SearchWidth(m: nat) returns (nbt: int, ghost g: nat)
    requires m < Cap
    ensures nbt == 5 * DigitCount(m) - 1
    ensures g == DigitCount(m)
  {
    nbt := 4;
    g := 1;
    while Pow2(nbt) <= m && nbt < 29
      invariant 1 <= g <= 6 && nbt == 5 * g - 1
      invariant forall h :: 1 <= h < g ==> !Fits(m, h)
      decreases 29 - nbt
    {
      nbt := nbt + 5;
      g := g + 1;
    }
    WidthIsDigitCount(m, g);
  }

  /** The copy loop of packcm6: the characters of the digit codes sub[..k]
      appended to out. */
  method AppendDigits(out: seq<char>, sub: array<int>, k: nat) returns (r: seq<char>)
    requires k <= sub.Length && ValidCodes(sub[..k])
    ensures r == out + Chars(sub[..k])
  {
    ghost var chars := Chars(sub[..k]);
    r := out;
    var j := 0;
    while j < k
      invariant 0 <= j <= k
      invariant r == out + chars[..j]
    {
      assert 0 <= sub[..k][j] < 64;
      assert chars[j] == Cm6Table[sub[j]];
      assert chars[..j + 1] == chars[..j] + [chars[j]];
      r := r + [Cm6Table[sub[j]]];
      j := j + 1;
    }
    assert chars[..k] == chars;
  }

  /** The width the encoder's search stops at is DigitCount. */
  lemma WidthIsDigitCount(m: nat, g: nat)
    requires m < Cap && 1 <= g <= 6
    requires g == 6 || Fits(m, g)
    requires forall h :: 1 <= h < g ==> !Fits(m, h)
    ensures g == DigitCount(m)
  {
    Pow2Values();
  }
}
